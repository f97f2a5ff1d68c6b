/**
 Insertion of a new key into a full table (`ef_index_put_entry`): exactly when it reports success, although it has to
 lose an entry.
 */
module FullTables {
  import opened Base
  import opened RobinHood
  import opened RobinHoodPut
  import opened Hazards

  /** The home of the entry in bucket `b`. */
  function H(t: seq<Entry>, b: nat): (h: nat)
    requires b < |t|
    ensures h < |t|
  {
    Home(|t|, t[b].key)
  }

  /** A full table, whose first `w` entries, and no others, have wrapped round. */
  ghost predicate FullTo(t: seq<Entry>, w: nat) {
    && w < |t| && WellFormed(t) && (forall b: nat :: b < |t| ==> !Empty(t[b]))
    && (forall b: nat :: b < |t| ==> (b < w <==> H(t, b) > b))
  }

  lemma FullWraps(t: seq<Entry>) returns (w: nat)
    requires |t| > 0 && WellFormed(t) && !HasEmpty(t)
    ensures FullTo(t, w)
  {
    w := |Wrapped(t)|;
    BelowCount(0);
    WrappedAre(t, 0);
    BelowCount(w);
    forall b: nat | b < |t| ensures b < w <==> H(t, b) > b {
      assert Taken(t, b);
      assert b in Wrapped(t) <==> H(t, b) > b;
    }
    assert H(t, |t| - 1) <= |t| - 1;
  }

  /** Going round from bucket `w` the homes ascend. */
  lemma HomesAscend(t: seq<Entry>, w: nat, b: nat)
    requires FullTo(t, w) && b < |t| && b != w
    ensures H(t, Pred(|t|, b)) <= H(t, b)
  {
    assert Settled(t, b);
    assert D(t, b) == if b < w then b + |t| - H(t, b) else b - H(t, b);
    var p := Pred(|t|, b);
    assert D(t, p) == if p < w then p + |t| - H(t, p) else p - H(t, p);
  }

  lemma {:induction false} LeastHome(t: seq<Entry>, w: nat, b: nat)
    requires FullTo(t, w) && b < |t|
    ensures H(t, w) <= H(t, b)
    decreases if b >= w then b - w else b + |t| - w
  {
    if b != w {
      HomesAscend(t, w, b);
      LeastHome(t, w, Pred(|t|, b));
    }
  }

  // ---------- A key that is not lower than all ----------

  /** The table with the buckets from `i` on, and those up to `w`, as they were. */
  ghost predicate Unmoved(t: seq<Entry>, u: seq<Entry>, w: nat, i: nat) {
    |u| == |t| && forall b: nat :: b < |t| && (b >= i || b <= w) ==> u[b] == t[b]
  }

  /** One step of a walk before the end of the table, behind bucket `w`. */
  lemma StepBefore(t: seq<Entry>, w: nat, key: Word, slot: Word, u: seq<Entry>, e: Entry, home: nat, i: nat)
    returns (u': seq<Entry>, e': Entry, home': nat)
    requires FullTo(t, w) && Absent(t, key) && Unmoved(t, u, w, i) && w < i < |t| && home <= i
    ensures Unmoved(t, u', w, i + 1) && home' <= i
    ensures Rest(u, key, slot, e, home, i) == Rest(u', key, slot, e', home', i + 1)
  {
    assert !Holds(t, key, i);
    assert u[i] == t[i] && D(u, i) == i - H(t, i);
    if i - home > D(u, i) {
      u', e', home' := u[i := e], u[i], H(t, i);
      RestSwaps(u, key, slot, e, home, i, u');
    } else {
      u', e', home' := u, e, home;
      RestPasses(u, key, slot, e, home, i);
    }
  }

  /** The buckets from `b` to `w` as they were. */
  ghost predicate Ahead(t: seq<Entry>, u: seq<Entry>, w: nat, b: nat) {
    |u| == |t| && forall c: nat :: b <= c <= w && c < |t| ==> u[c] == t[c]
  }

  /** One step of a walk that has gone round, before bucket `w`. */
  lemma StepRound(t: seq<Entry>, w: nat, key: Word, slot: Word, u: seq<Entry>, e: Entry, home: nat, b: nat)
    returns (u': seq<Entry>, e': Entry, home': nat)
    requires FullTo(t, w) && Absent(t, key) && Ahead(t, u, w, b) && b < w && b < home < |t|
    ensures Ahead(t, u', w, b + 1) && home' < |t| && home' == if H(t, b) > home then H(t, b) else home
    ensures u' == u || u' == u[b := e]
    ensures Rest(u, key, slot, e, home, |t| + b) == Rest(u', key, slot, e', home', |t| + b + 1)
  {
    assert !Holds(t, key, b);
    assert u[b] == t[b] && D(u, b) == b + |t| - H(t, b) && Dist(|t|, home, b) == b + |t| - home;
    if H(t, b) > home {
      u', e', home' := u[b := e], u[b], H(t, b);
      RestSwaps(u, key, slot, e, home, |t| + b, u');
    } else {
      u', e', home' := u, e, home;
      RestPasses(u, key, slot, e, home, |t| + b);
    }
  }

  /** At bucket `w` it gives up, if that bucket is as it was. */
  lemma Trapped(t: seq<Entry>, w: nat, key: Word, slot: Word, u: seq<Entry>, e: Entry, home: nat)
    requires FullTo(t, w) && Absent(t, key) && |u| == |t| && u[w] == t[w] && home < |t|
    ensures Rest(u, key, slot, e, home, |t| + w).Full?
  {
    if w < home {
      assert !Holds(t, key, w);
      assert D(u, w) == w - H(t, w) && Dist(|t|, home, w) == w + |t| - home;
      RestSwaps(u, key, slot, e, home, |t| + w, u[w := e]);
    }
  }

  lemma GivesUp(t: seq<Entry>, w: nat, key: Word, slot: Word, u: seq<Entry>, e: Entry, home: nat)
    requires FullTo(t, w) && Absent(t, key) && Ahead(t, u, w, 0) && home < |t|
    ensures Rest(u, key, slot, e, home, |t|).Full?
  {
    var u', e', b := u, e, 0;
    var home': nat := home;
    while b < w && b < home'
      invariant b <= w && home' < |t| && Ahead(t, u', w, b)
      invariant Rest(u, key, slot, e, home, |t|) == Rest(u', key, slot, e', home', |t| + b)
    {
      u', e', home' := StepRound(t, w, key, slot, u', e', home', b);
      b := b + 1;
    }
    if b == w {
      Trapped(t, w, key, slot, u', e', home');
    }
  }

  /** A walk from behind bucket `w` ends in giving up. */
  lemma FromBehind(t: seq<Entry>, w: nat, key: Word, slot: Word, e: Entry, home: nat, i: nat)
    requires FullTo(t, w) && Absent(t, key) && w < i <= |t| && home <= i && home < |t|
    ensures Rest(t, key, slot, e, home, i).Full?
  {
    var u', e', k := t, e, i;
    var home': nat := home;
    while k < |t|
      invariant w < k <= |t| && home' <= k && home' < |t| && Unmoved(t, u', w, k)
      invariant Rest(t, key, slot, e, home, i) == Rest(u', key, slot, e', home', k)
    {
      u', e', home' := StepBefore(t, w, key, slot, u', e', home', k);
      k := k + 1;
    }
    GivesUp(t, w, key, slot, u', e', home');
  }

  // ---------- Up to bucket `w` ----------

  /** Entries that have wrapped round let a walk pass that has not. */
  lemma PassWrapped(t: seq<Entry>, w: nat, key: Word, slot: Word, e: Entry, home: nat)
    requires FullTo(t, w) && Absent(t, key) && home <= w
    ensures Rest(t, key, slot, e, home, home) == Rest(t, key, slot, e, home, w)
  {
    var i := home;
    while i < w
      invariant home <= i <= w && Rest(t, key, slot, e, home, home) == Rest(t, key, slot, e, home, i)
    {
      assert !Holds(t, key, i);
      assert D(t, i) == i + |t| - H(t, i);
      RestPasses(t, key, slot, e, home, i);
      i := i + 1;
    }
  }

  lemma NotLowest(t: seq<Entry>, w: nat, key: Word, slot: Word)
    requires FullTo(t, w) && Absent(t, key) && H(t, w) <= Home(|t|, key)
    ensures Put(t, key, slot).Full?
  {
    var e, home := Entry(key, slot), Home(|t|, key);
    assert Put(t, key, slot) == Rest(t, key, slot, e, home, home);
    if home <= w {
      PassWrapped(t, w, key, slot, e, home);
      assert !Holds(t, key, w);
      assert D(t, w) == w - H(t, w);
      RestPasses(t, key, slot, e, home, w);
      FromBehind(t, w, key, slot, e, home, w + 1);
    } else {
      FromBehind(t, w, key, slot, e, home, home);
    }
  }

  // ---------- A key that is lower than all ----------

  /** The bucket before, going round. */
  function Before(t: seq<Entry>, b: nat): (p: nat)
    requires b < |t|
    ensures p < |t|
  {
    Pred(|t|, b)
  }

  /** Behind its own bucket `w` the key carries on the entry with the greatest home so far. */
  ghost predicate Onward(t: seq<Entry>, u: seq<Entry>, w: nat, own: Entry, i: nat) {
    && |u| == |t| && w < |t| && u[w] == own && forall b: nat :: b < |t| && (b >= i || b < w) ==> u[b] == t[b]
  }

  lemma StepOnward(t: seq<Entry>, w: nat, key: Word, slot: Word, u: seq<Entry>, e: Entry, i: nat)
    returns (u': seq<Entry>, e': Entry)
    requires FullTo(t, w) && Absent(t, key) && Onward(t, u, w, Entry(key, slot), i) && w < i < |t|
    ensures Onward(t, u', w, Entry(key, slot), i + 1)
    ensures Rest(u, key, slot, e, H(t, i - 1), i) == Rest(u', key, slot, e', H(t, i), i + 1)
  {
    assert !Holds(t, key, i);
    HomesAscend(t, w, i);
    assert u[i] == t[i] && D(u, i) == i - H(t, i);
    if H(t, i) > H(t, i - 1) {
      u', e' := u[i := e], u[i];
      RestSwaps(u, key, slot, e, H(t, i - 1), i, u');
    } else {
      u', e' := u, e;
      RestPasses(u, key, slot, e, H(t, i - 1), i);
    }
  }

  lemma ToTheEnd(t: seq<Entry>, w: nat, key: Word, slot: Word, u: seq<Entry>, e: Entry)
    returns (u': seq<Entry>, e': Entry)
    requires FullTo(t, w) && Absent(t, key) && Onward(t, u, w, Entry(key, slot), w + 1)
    ensures Onward(t, u', w, Entry(key, slot), |t|)
    ensures Rest(u, key, slot, e, H(t, w), w + 1) == Rest(u', key, slot, e', H(t, |t| - 1), |t|)
  {
    u', e' := u, e;
    var i := w + 1;
    while i < |t|
      invariant w < i <= |t| && Onward(t, u', w, Entry(key, slot), i)
      invariant Rest(u, key, slot, e, H(t, w), w + 1) == Rest(u', key, slot, e', H(t, i - 1), i)
    {
      u', e' := StepOnward(t, w, key, slot, u', e', i);
      i := i + 1;
    }
  }

  /** The buckets from `b` up to `w` as they were, and the key in bucket `w`. */
  ghost predicate Homeward(t: seq<Entry>, u: seq<Entry>, w: nat, own: Entry, b: nat) {
    && |u| == |t| && w < |t| && u[w] == own && forall c: nat :: b <= c < w ==> u[c] == t[c]
  }

  lemma StepHomeward(t: seq<Entry>, w: nat, key: Word, slot: Word, u: seq<Entry>, e: Entry, b: nat)
    returns (u': seq<Entry>, e': Entry)
    requires FullTo(t, w) && Absent(t, key) && Homeward(t, u, w, Entry(key, slot), b) && b < w
    requires b < H(t, Before(t, b))
    ensures Homeward(t, u', w, Entry(key, slot), b + 1)
    ensures Rest(u, key, slot, e, H(t, Before(t, b)), |t| + b) == Rest(u', key, slot, e', H(t, b), |t| + b + 1)
  {
    var home := H(t, Before(t, b));
    assert !Holds(t, key, b);
    HomesAscend(t, w, b);
    assert u[b] == t[b] && D(u, b) == b + |t| - H(t, b) && Dist(|t|, home, b) == b + |t| - home;
    if H(t, b) > home {
      u', e' := u[b := e], u[b];
      RestSwaps(u, key, slot, e, home, |t| + b, u');
    } else {
      u', e' := u, e;
      RestPasses(u, key, slot, e, home, |t| + b);
    }
  }

  /** No entry up to bucket `b` has come all the way round to the bucket before its home. */
  ghost predicate ClearTo(t: seq<Entry>, b: nat) {
    b < |t| && forall c: nat :: c <= b ==> c < H(t, Before(t, c))
  }

  /** Round again, it comes to its own bucket if no bound is met on the way. */
  lemma Return(t: seq<Entry>, w: nat, key: Word, slot: Word, u: seq<Entry>, e: Entry)
    requires FullTo(t, w) && Absent(t, key) && Homeward(t, u, w, Entry(key, slot), 0) && slot != 0
    ensures Rest(u, key, slot, e, H(t, |t| - 1), |t|).Stored? <==> ClearTo(t, w)
  {
    var u', e', b := u, e, 0;
    assert Before(t, 0) == |t| - 1;
    while b < w && b < H(t, Before(t, b))
      invariant b <= w && Homeward(t, u', w, Entry(key, slot), b)
      invariant forall c: nat :: c < b ==> c < H(t, Before(t, c))
      invariant Rest(u, key, slot, e, H(t, |t| - 1), |t|) == Rest(u', key, slot, e', H(t, Before(t, b)), |t| + b)
    {
      u', e' := StepHomeward(t, w, key, slot, u', e', b);
      b := b + 1;
      assert Before(t, b) == b - 1;
    }
    if b < H(t, Before(t, b)) {
      RestOverwrites(u', key, slot, e', H(t, Before(t, b)), |t| + w);
    }
  }

  /** The state in which a full table takes a new key with this home, and says so. */
  ghost predicate Slips(t: seq<Entry>, home: nat) {
    forall b: nat :: b < |t| ==> H(t, b) > home && D(t, b) < |t| - 1
  }

  lemma SlipsMeans(t: seq<Entry>, w: nat, home: nat)
    requires FullTo(t, w) && home < H(t, w)
    ensures ClearTo(t, w) <==> Slips(t, home)
  {
    var n := |t|;
    forall b: nat | b < n ensures H(t, b) > home && D(t, b) == if b < w then b + n - H(t, b) else b - H(t, b) {
      LeastHome(t, w, b);
    }
    if ClearTo(t, w) {
      forall b: nat | b < n ensures D(t, b) < n - 1 {
        if b < w {
          assert Before(t, b + 1) == b;
        }
      }
    }
    if Slips(t, home) {
      forall c: nat | c <= w ensures c < H(t, Before(t, c)) {
        if c > 0 {
          assert D(t, c - 1) < n - 1;
        } else {
          assert H(t, n - 1) > home;
        }
      }
    }
  }

  lemma Lowest(t: seq<Entry>, w: nat, key: Word, slot: Word)
    requires FullTo(t, w) && Absent(t, key) && Home(|t|, key) < H(t, w) && slot != 0
    ensures Put(t, key, slot).Stored? <==> ClearTo(t, w)
  {
    var e, home := Entry(key, slot), Home(|t|, key);
    assert Put(t, key, slot) == Rest(t, key, slot, e, home, home);
    PassWrapped(t, w, key, slot, e, home);
    assert !Holds(t, key, w);
    assert D(t, w) == w - H(t, w);
    RestSwaps(t, key, slot, e, home, w, t[w := e]);
    var u, c := ToTheEnd(t, w, key, slot, t[w := e], t[w]);
    Return(t, w, key, slot, u, c);
  }

  /**
   On a full table the insertion of a new key reports success if and only if its home lies before the home of every
   entry, and no entry has come all the way round to the bucket before its home.
   */
  lemma SuccessIff(t: seq<Entry>, key: Word, slot: Word)
    requires |t| > 0 && slot != 0 && WellFormed(t) && !HasEmpty(t) && key !in Contents(t)
    ensures Put(t, key, slot).Stored? <==> Slips(t, Home(|t|, key))
  {
    var w := FullWraps(t);
    LacksAbsent(t, key);
    if H(t, w) <= Home(|t|, key) {
      NotLowest(t, w, key, slot);
    } else {
      Lowest(t, w, key, slot);
      SlipsMeans(t, w, Home(|t|, key));
    }
  }
}
