/**
 Insertion into the Robin Hood table (`ef_index_put_entry`): the displacement chain keeps the
 ordering, and its exact effect on the map, including the two ways in which it loses an entry.
 */
module RobinHoodPut {
  import opened Base
  import opened RobinHood

  /** How an insertion ends: stored, or given up with one entry still in hand. */
  datatype Outcome =
    | Stored(table: seq<Entry>, added: bool)
    | Full(table: seq<Entry>, lost: Entry)

  /**
   The loop of `ef_index_put_entry` at unrolled index `i`, carrying `carry`, whose home is `home`.
   The loop bound moves with `home`, and the duplicate check always looks for the original key.
   */
  function InsertFrom(t: seq<Entry>, key: Word, slot: Word, carry: Entry, home: nat, i: nat): (r: Outcome)
    requires home < |t| && i <= 2 * |t|
    ensures |r.table| == |t|
    decreases 2 * |t| - i
  {
    if i >= home + |t| then Full(t, carry)
    else
      var b := Wrap(|t|, i);
      if Empty(t[b]) then Stored(t[b := carry], true)
      else if t[b].key == key then Stored(t[b := Entry(key, slot)], false)
      else if Dist(|t|, home, b) > D(t, b) then
        InsertFrom(t[b := carry], key, slot, t[b], Home(|t|, t[b].key), i + 1)
      else
        InsertFrom(t, key, slot, carry, home, i + 1)
  }

  /** The rest of an insertion, from unrolled index `i` on. */
  ghost function Rest(t: seq<Entry>, key: Word, slot: Word, carry: Entry, home: nat, i: nat): Outcome
    requires home < |t| && i <= 2 * |t|
  {
    InsertFrom(t, key, slot, carry, home, i)
  }

  function Put(t: seq<Entry>, key: Word, slot: Word): (r: Outcome)
    requires |t| > 0
    ensures |r.table| == |t|
  {
    InsertFrom(t, key, slot, Entry(key, slot), Home(|t|, key), Home(|t|, key))
  }

  lemma RestPasses(t: seq<Entry>, key: Word, slot: Word, carry: Entry, home: nat, i: nat)
    requires home < |t| && i < home + |t|
    requires var b := Wrap(|t|, i); !Empty(t[b]) && t[b].key != key && Dist(|t|, home, b) <= D(t, b)
    ensures Rest(t, key, slot, carry, home, i) == Rest(t, key, slot, carry, home, i + 1)
  {
  }

  lemma RestSwaps(t: seq<Entry>, key: Word, slot: Word, carry: Entry, home: nat, i: nat, t': seq<Entry>)
    requires home < |t| && i < home + |t|
    requires var b := Wrap(|t|, i);
      !Empty(t[b]) && t[b].key != key && Dist(|t|, home, b) > D(t, b) && t' == t[b := carry]
    ensures var e := t[Wrap(|t|, i)];
      Rest(t, key, slot, carry, home, i) == Rest(t', key, slot, e, Home(|t|, e.key), i + 1)
  {
  }

  lemma RestOverwrites(t: seq<Entry>, key: Word, slot: Word, carry: Entry, home: nat, i: nat)
    requires home < |t| && i < home + |t|
    requires var b := Wrap(|t|, i); !Empty(t[b]) && t[b].key == key
    ensures Rest(t, key, slot, carry, home, i) == Stored(t[Wrap(|t|, i) := Entry(key, slot)], false)
  {
  }

  // ---------- The ordering is kept ----------

  /** An entry with this home may stand in bucket `b` without breaking the ordering there. */
  ghost predicate Fits(t: seq<Entry>, home: nat, b: nat)
    requires home < |t| && b < |t|
  {
    var d := Dist(|t|, home, b);
    d == 0 || (!Empty(t[Pred(|t|, b)]) && d <= D(t, Pred(|t|, b)) + 1)
  }

  lemma PlaceOrdered(t: seq<Entry>, b: nat, e: Entry)
    requires Ordered(t) && b < |t| && !Empty(e) && Fits(t, Home(|t|, e.key), b)
    requires Empty(t[b]) || Dist(|t|, Home(|t|, e.key), b) >= D(t, b)
    ensures Ordered(t[b := e])
  {
    var t' := t[b := e];
    forall c: nat | c < |t'| && !Empty(t'[c])
      ensures Settled(t', c)
    {
      if c != b {
        assert Settled(t, c);
      }
    }
  }

  lemma NextFits(t: seq<Entry>, home: nat, b: nat)
    requires home < |t| && b < |t| && !Empty(t[b]) && Dist(|t|, home, b) <= D(t, b)
    ensures Fits(t, home, if b + 1 == |t| then 0 else b + 1)
  {
  }

  /** After a swap: the carried entry is not in the table, fits where the walk stands, and the new key is in. */
  ghost predicate Carrying(t: seq<Entry>, key: Word, carry: Entry, home: nat, i: nat) {
    && |t| > 0 && i < 2 * |t|
    && Ordered(t) && Unique(t)
    && !Empty(carry) && Absent(t, carry.key) && !Absent(t, key)
    && home == Home(|t|, carry.key)
    && Fits(t, home, Wrap(|t|, i))
  }

  /** One displacement keeps everything that `Carrying` says. */
  lemma SwapKeeps(t: seq<Entry>, key: Word, carry: Entry, home: nat, i: nat)
    requires |t| > 0 && i + 1 < 2 * |t|
    requires Ordered(t) && Unique(t) && !Empty(carry) && Absent(t, carry.key)
    requires home == Home(|t|, carry.key) && Fits(t, home, Wrap(|t|, i))
    requires !Absent(t, key) || carry.key == key
    requires var b := Wrap(|t|, i); !Empty(t[b]) && t[b].key != key && Dist(|t|, home, b) > D(t, b)
    ensures var b := Wrap(|t|, i);
            Carrying(t[b := carry], key, t[b], Home(|t|, t[b].key), i + 1)
  {
    var b := Wrap(|t|, i);
    var t' := t[b := carry];
    PlaceOrdered(t, b, carry);
    ReplaceUnique(t, b, carry);
    assert Holds(t, t[b].key, b);
    forall c: nat ensures !Holds(t', t[b].key, c) {
      assert c != b ==> (Holds(t', t[b].key, c) <==> Holds(t, t[b].key, c));
    }
    if carry.key == key {
      assert Holds(t', key, b);
    } else {
      var c: nat :| Holds(t, key, c);
      assert Holds(t', key, c);
    }
  }

  lemma PlaceKeeps(t: seq<Entry>, b: nat, e: Entry)
    requires WellFormed(t) && b < |t| && Empty(t[b])
    requires !Empty(e) && Absent(t, e.key) && Fits(t, Home(|t|, e.key), b)
    ensures WellFormed(t[b := e])
    ensures Contents(t[b := e]) == Contents(t)[e.key := e.slot]
  {
    PlaceOrdered(t, b, e);
    ReplaceUnique(t, b, e);
    ReplaceContents(t, b, e);
  }

  lemma CarryPlaced(t: seq<Entry>, key: Word, carry: Entry, home: nat, i: nat)
    requires Carrying(t, key, carry, home, i) && Empty(t[Wrap(|t|, i)])
    ensures WellFormed(t[Wrap(|t|, i) := carry])
    ensures Contents(t[Wrap(|t|, i) := carry]) == Contents(t)[carry.key := carry.slot]
  {
    PlaceKeeps(t, Wrap(|t|, i), carry);
  }

  lemma CarrySwapped(t: seq<Entry>, key: Word, carry: Entry, home: nat, i: nat)
    requires Carrying(t, key, carry, home, i) && i + 1 < 2 * |t|
    requires var b := Wrap(|t|, i); !Empty(t[b]) && t[b].key != key && Dist(|t|, home, b) > D(t, b)
    ensures var b := Wrap(|t|, i);
            Carrying(t[b := carry], key, t[b], Home(|t|, t[b].key), i + 1)
  {
    SwapKeeps(t, key, carry, home, i);
  }

  lemma CarryMoves(t: seq<Entry>, key: Word, carry: Entry, home: nat, i: nat)
    requires Carrying(t, key, carry, home, i) && i + 1 < 2 * |t|
    requires var b := Wrap(|t|, i); !Empty(t[b]) && Dist(|t|, home, b) <= D(t, b)
    ensures Carrying(t, key, carry, home, i + 1)
  {
    NextFits(t, home, Wrap(|t|, i));
  }

  lemma {:induction false} CarryingKeepsOrder(t: seq<Entry>, key: Word, slot: Word, carry: Entry, home: nat, i: nat)
    requires slot != 0 && Carrying(t, key, carry, home, i)
    ensures WellFormed(Rest(t, key, slot, carry, home, i).table)
    decreases 2 * |t| - i
  {
    if i < home + |t| {
      var b := Wrap(|t|, i);
      if Empty(t[b]) {
        CarryPlaced(t, key, carry, home, i);
      } else if t[b].key == key {
        OverwriteKeeps(t, key, slot, b);
      } else if Dist(|t|, home, b) > D(t, b) {
        CarrySwapped(t, key, carry, home, i);
        CarryingKeepsOrder(t[b := carry], key, slot, t[b], Home(|t|, t[b].key), i + 1);
      } else {
        CarryMoves(t, key, carry, home, i);
        CarryingKeepsOrder(t, key, slot, carry, home, i + 1);
      }
    }
  }

  lemma OverwriteKeeps(t: seq<Entry>, key: Word, slot: Word, b: nat)
    requires slot != 0 && WellFormed(t) && Holds(t, key, b)
    ensures WellFormed(t[b := Entry(key, slot)])
    ensures Contents(t[b := Entry(key, slot)]) == Contents(t)[key := slot]
  {
    var t' := t[b := Entry(key, slot)];
    forall c: nat | c < |t'| && !Empty(t'[c])
      ensures Settled(t', c)
    {
      assert Settled(t, c);
    }
    ReplaceUnique(t, b, Entry(key, slot));
    ReplaceContents(t, b, Entry(key, slot));
    ContentsHas(t, key, b);
  }

  lemma PassedFits(t: seq<Entry>, key: Word, i: nat)
    requires Passed(t, key, i) && i < Home(|t|, key) + |t|
    ensures Fits(t, Home(|t|, key), Wrap(|t|, i))
  {
    if i > Home(|t|, key) {
      assert D(t, Wrap(|t|, i - 1)) >= i - 1 - Home(|t|, key);
    }
  }

  /** The walk reaches an empty bucket before any swap. */
  lemma FirstPlace(t: seq<Entry>, key: Word, slot: Word, i: nat)
    requires slot != 0 && WellFormed(t) && Passed(t, key, i) && i < Home(|t|, key) + |t|
    requires Empty(t[Wrap(|t|, i)])
    ensures Absent(t, key)
    ensures WellFormed(t[Wrap(|t|, i) := Entry(key, slot)])
    ensures Contents(t[Wrap(|t|, i) := Entry(key, slot)]) == Contents(t)[key := slot]
  {
    StopMeansAbsent(t, key, i);
    PassedFits(t, key, i);
    PlaceKeeps(t, Wrap(|t|, i), Entry(key, slot));
  }

  /** The first swap: the key is nowhere in the table, so putting it in cannot duplicate it. */
  lemma FirstSwap(t: seq<Entry>, key: Word, slot: Word, i: nat)
    requires slot != 0 && WellFormed(t) && Passed(t, key, i) && i < Home(|t|, key) + |t|
    requires var b := Wrap(|t|, i); !Empty(t[b]) && t[b].key != key && Dist(|t|, Home(|t|, key), b) > D(t, b)
    ensures Absent(t, key)
    ensures var b := Wrap(|t|, i);
            Carrying(t[b := Entry(key, slot)], key, t[b], Home(|t|, t[b].key), i + 1)
  {
    StopMeansAbsent(t, key, i);
    PassedFits(t, key, i);
    SwapKeeps(t, key, Entry(key, slot), Home(|t|, key), i);
  }

  lemma PassedMoves(t: seq<Entry>, key: Word, i: nat)
    requires Passed(t, key, i) && i < Home(|t|, key) + |t|
    requires var b := Wrap(|t|, i); !Empty(t[b]) && t[b].key != key && Dist(|t|, Home(|t|, key), b) <= D(t, b)
    ensures Passed(t, key, i + 1)
  {
  }

  lemma FirstSwapKeepsOrder(t: seq<Entry>, key: Word, slot: Word, i: nat)
    requires slot != 0 && WellFormed(t) && Passed(t, key, i) && i < Home(|t|, key) + |t|
    requires var b := Wrap(|t|, i); !Empty(t[b]) && t[b].key != key && Dist(|t|, Home(|t|, key), b) > D(t, b)
    ensures WellFormed(Rest(t, key, slot, Entry(key, slot), Home(|t|, key), i).table)
  {
    var b := Wrap(|t|, i);
    var t' := t[b := Entry(key, slot)];
    FirstSwap(t, key, slot, i);
    RestSwaps(t, key, slot, Entry(key, slot), Home(|t|, key), i, t');
    CarryingKeepsOrder(t', key, slot, t[b], Home(|t|, t[b].key), i + 1);
  }

  lemma {:induction false} PassedKeepsOrder(t: seq<Entry>, key: Word, slot: Word, i: nat)
    requires slot != 0 && WellFormed(t) && Passed(t, key, i)
    ensures WellFormed(Rest(t, key, slot, Entry(key, slot), Home(|t|, key), i).table)
    decreases 2 * |t| - i
  {
    var home := Home(|t|, key);
    if i < home + |t| {
      var b := Wrap(|t|, i);
      if Empty(t[b]) {
        FirstPlace(t, key, slot, i);
      } else if t[b].key == key {
        OverwriteKeeps(t, key, slot, b);
        RestOverwrites(t, key, slot, Entry(key, slot), home, i);
      } else if Dist(|t|, home, b) > D(t, b) {
        FirstSwapKeepsOrder(t, key, slot, i);
      } else {
        PassedMoves(t, key, i);
        RestPasses(t, key, slot, Entry(key, slot), home, i);
        PassedKeepsOrder(t, key, slot, i + 1);
      }
    }
  }

  /**
   Every displacement chain keeps the ordering and the uniqueness of keys, whatever the outcome and
   however full the table: the duplicate check before the first swap is enough.
   */
  lemma PutKeepsOrder(t: seq<Entry>, key: Word, slot: Word)
    requires |t| > 0 && slot != 0 && WellFormed(t)
    ensures WellFormed(Put(t, key, slot).table)
  {
    PassedKeepsOrder(t, key, slot, Home(|t|, key));
  }

  // ---------- Overwriting a key ----------

  lemma {:induction false} PutPresentFrom(t: seq<Entry>, key: Word, slot: Word, i: nat)
    requires slot != 0 && WellFormed(t) && Passed(t, key, i) && key in Contents(t)
    ensures var r := Rest(t, key, slot, Entry(key, slot), Home(|t|, key), i);
            r.Stored? && !r.added && Unique(r.table) && Contents(r.table) == Contents(t)[key := slot]
    decreases 2 * |t| - i
  {
    var home := Home(|t|, key);
    if i == home + |t| {
      LapMeansAbsent(t, key);
      ContentsLacks(t, key);
    } else {
      var b := Wrap(|t|, i);
      if Empty(t[b]) {
        StopMeansAbsent(t, key, i);
        ContentsLacks(t, key);
      } else if t[b].key == key {
        OverwriteKeeps(t, key, slot, b);
      } else if Dist(|t|, home, b) > D(t, b) {
        StopMeansAbsent(t, key, i);
        ContentsLacks(t, key);
      } else {
        PassedMoves(t, key, i);
        PutPresentFrom(t, key, slot, i + 1);
      }
    }
  }

  /** A key that is present is overwritten in place, even in a full table. */
  lemma PutPresent(t: seq<Entry>, key: Word, slot: Word)
    requires |t| > 0 && slot != 0 && WellFormed(t) && key in Contents(t)
    ensures var r := Put(t, key, slot);
            r.Stored? && !r.added && Unique(r.table) && Contents(r.table) == Contents(t)[key := slot]
  {
    PutPresentFrom(t, key, slot, Home(|t|, key));
  }

  // ---------- The exact outcome when an empty bucket exists ----------

  /** `z` is the first empty bucket that a walk from `i` will meet, less than one lap after `start`. */
  ghost predicate FirstEmpty(t: seq<Entry>, start: nat, i: nat, z: nat) {
    && start <= i <= z < start + |t| && start < |t|
    && Empty(t[Wrap(|t|, z)])
    && forall k: nat :: i <= k < z ==> !Empty(t[Wrap(|t|, k)])
  }

  /** An entry that a walk meets after it has wrapped round, but that is not wrapped round itself. */
  ghost predicate Trap(t: seq<Entry>, k: nat) {
    |t| <= k < 2 * |t| && D(t, k - |t|) <= k - |t|
  }

  ghost predicate TrapAhead(t: seq<Entry>, i: nat, z: nat) {
    exists k: nat :: i <= k < z && Trap(t, k)
  }

  lemma SwapKeepsFirstEmpty(t: seq<Entry>, start: nat, i: nat, z: nat, e: Entry)
    requires FirstEmpty(t, start, i, z) && i < z
    ensures FirstEmpty(t[Wrap(|t|, i) := e], start, i + 1, z)
    ensures !Trap(t, i) ==> (TrapAhead(t[Wrap(|t|, i) := e], i + 1, z) <==> TrapAhead(t, i, z))
  {
    var t' := t[Wrap(|t|, i) := e];
    forall k: nat | i < k <= z
      ensures t'[Wrap(|t|, k)] == t[Wrap(|t|, k)] && (Trap(t', k) <==> Trap(t, k))
    {
      assert Wrap(|t|, k) != Wrap(|t|, i);
    }
  }

  lemma SwapContents(t: seq<Entry>, b: nat, e: Entry)
    requires b < |t| && Unique(t) && !Empty(t[b]) && !Empty(e) && Absent(t, e.key)
    ensures Unique(t[b := e])
    ensures Contents(t[b := e])[t[b].key := t[b].slot] == Contents(t)[e.key := e.slot]
  {
    ContentsHas(t, t[b].key, b);
    ContentsLacks(t, e.key);
    ReplaceUnique(t, b, e);
    ReplaceContents(t, b, e);
  }

  /** What a walk that has already swapped ends in. */
  ghost predicate EndsIn(r: Outcome, key: Word, target: map<Word, Word>, trapped: bool) {
    && WellFormed(r.table)
    && (r.Full? <==> trapped)
    && (r.Stored? ==> r.added && Contents(r.table) == target)
    && (r.Full? ==> !Empty(r.lost) && r.lost.key != key && Absent(r.table, r.lost.key)
                    && Contents(r.table)[r.lost.key := r.lost.slot] == target)
  }

  /** A walk from `start` that has left its key at `q`, with the first empty bucket at `z`. */
  ghost predicate WalksOn(t: seq<Entry>, key: Word, carry: Entry, home: nat, i: nat, start: nat, z: nat, q: nat) {
    && Carrying(t, key, carry, home, i) && FirstEmpty(t, start, i, z)
    && start <= home <= i && start <= q < i && Holds(t, key, Wrap(|t|, q))
  }

  /** The key that the walk has left behind does not turn up again before the first empty bucket. */
  lemma NotTheKey(t: seq<Entry>, key: Word, carry: Entry, home: nat, i: nat, start: nat, z: nat, q: nat)
    requires WalksOn(t, key, carry, home, i, start, z, q) && i < z
    ensures t[Wrap(|t|, i)].key != key
  {
    var b := Wrap(|t|, i);
    assert Wrap(|t|, q) != b;
    assert Holds(t, t[b].key, b);
  }

  lemma WalksPast(t: seq<Entry>, key: Word, slot: Word, carry: Entry, home: nat, i: nat, start: nat, z: nat, q: nat)
    requires WalksOn(t, key, carry, home, i, start, z, q) && i < z && i - home <= D(t, Wrap(|t|, i))
    ensures WalksOn(t, key, carry, home, i + 1, start, z, q)
    ensures Rest(t, key, slot, carry, home, i) == Rest(t, key, slot, carry, home, i + 1)
    ensures TrapAhead(t, i + 1, z) <==> TrapAhead(t, i, z)
  {
    NotTheKey(t, key, carry, home, i, start, z, q);
    assert !Trap(t, i);
    CarryMoves(t, key, carry, home, i);
    RestPasses(t, key, slot, carry, home, i);
  }

  lemma {:induction false} CarryExact(t: seq<Entry>, key: Word, slot: Word, carry: Entry, home: nat, i: nat,
                                      start: nat, z: nat, q: nat)
    requires slot != 0 && WalksOn(t, key, carry, home, i, start, z, q)
    ensures EndsIn(Rest(t, key, slot, carry, home, i), key,
                   Contents(t)[carry.key := carry.slot], TrapAhead(t, i, z))
    decreases 2 * |t| - i
  {
    if i == z {
      CarryPlaced(t, key, carry, home, i);
    } else if i - home > D(t, Wrap(|t|, i)) {
      NotTheKey(t, key, carry, home, i, start, z, q);
      CarryExactSwap(t, key, slot, carry, home, i, start, z, q);
    } else {
      WalksPast(t, key, slot, carry, home, i, start, z, q);
      CarryExact(t, key, slot, carry, home, i + 1, start, z, q);
    }
  }

  lemma {:induction false} CarryExactSwap(t: seq<Entry>, key: Word, slot: Word, carry: Entry, home: nat, i: nat,
                                          start: nat, z: nat, q: nat)
    requires slot != 0 && Carrying(t, key, carry, home, i) && FirstEmpty(t, start, i, z)
    requires start <= home <= i < z && start <= q < i && Holds(t, key, Wrap(|t|, q))
    requires t[Wrap(|t|, i)].key != key && i - home > D(t, Wrap(|t|, i))
    ensures EndsIn(Rest(t, key, slot, carry, home, i), key,
                   Contents(t)[carry.key := carry.slot], TrapAhead(t, i, z))
    decreases 2 * |t| - i, 2
  {
    var b := Wrap(|t|, i);
    CarrySwapped(t, key, carry, home, i);
    SwapContents(t, b, carry);
    assert Holds(t[b := carry], key, Wrap(|t|, q));
    SwappedEnds(t, key, slot, carry, home, i, start, z, q);
  }

  lemma SwapUnfolded(t: seq<Entry>, key: Word, slot: Word, carry: Entry, home: nat, i: nat)
    requires home < |t| && home <= i < home + |t|
    requires var b := Wrap(|t|, i); !Empty(t[b]) && t[b].key != key && i - home > D(t, b)
    ensures var b := Wrap(|t|, i);
            Rest(t, key, slot, carry, home, i) == Rest(t[b := carry], key, slot, t[b], Home(|t|, t[b].key), i + 1)
  {
  }

  lemma TrapGivesUp(t: seq<Entry>, t': seq<Entry>, key: Word, slot: Word, i: nat)
    requires |t'| == |t| > 0 && Trap(t, i)
    ensures var e := t[Wrap(|t|, i)];
            Rest(t', key, slot, e, Home(|t|, e.key), i + 1) == Full(t', e)
  {
  }

  lemma NoTrapHome(t: seq<Entry>, home: nat, i: nat)
    requires |t| > 0 && home < |t| && home <= i < 2 * |t| && i - home > D(t, Wrap(|t|, i)) && !Trap(t, i)
    ensures home < Home(|t|, t[Wrap(|t|, i)].key) <= i
  {
  }

  /** A walk that gives up with an entry in hand has lost exactly that entry. */
  lemma GivenUp(t: seq<Entry>, key: Word, carry: Entry, home: nat, i: nat)
    requires Carrying(t, key, carry, home, i)
    ensures EndsIn(Full(t, carry), key, Contents(t)[carry.key := carry.slot], true)
  {
  }

  lemma SwappedAtTrap(t: seq<Entry>, key: Word, slot: Word, carry: Entry, home: nat, i: nat, z: nat)
    requires home < |t| && home <= i < home + |t| && i < z && Trap(t, i)
    requires var b := Wrap(|t|, i); !Empty(t[b]) && t[b].key != key && i - home > D(t, b)
    requires var b := Wrap(|t|, i); Carrying(t[b := carry], key, t[b], Home(|t|, t[b].key), i + 1)
    ensures var b := Wrap(|t|, i);
            EndsIn(Rest(t, key, slot, carry, home, i), key,
                   Contents(t[b := carry])[t[b].key := t[b].slot], TrapAhead(t, i, z))
  {
    var b := Wrap(|t|, i);
    var t', home' := t[b := carry], Home(|t|, t[b].key);
    SwapUnfolded(t, key, slot, carry, home, i);
    TrapGivesUp(t, t', key, slot, i);
    GivenUp(t', key, t[b], home', i + 1);
    assert TrapAhead(t, i, z);
  }

  lemma SwapWalksOn(t: seq<Entry>, key: Word, carry: Entry, home: nat, i: nat, start: nat, z: nat, q: nat)
    requires SwapsOn(t, key, carry, home, i, start, z, q) && !Trap(t, i)
    ensures var b := Wrap(|t|, i);
            WalksOn(t[b := carry], key, t[b], Home(|t|, t[b].key), i + 1, start, z, q)
    ensures TrapAhead(t[Wrap(|t|, i) := carry], i + 1, z) <==> TrapAhead(t, i, z)
  {
    NoTrapHome(t, home, i);
    SwapKeepsFirstEmpty(t, start, i, z, carry);
  }

  /** A swap at `i`, elsewhere than at a trap: the first empty bucket stays ahead. */
  ghost predicate SwapsOn(t: seq<Entry>, key: Word, carry: Entry, home: nat, i: nat, start: nat, z: nat, q: nat) {
    && FirstEmpty(t, start, i, z) && start <= home <= i < z && home < |t|
    && var b := Wrap(|t|, i);
       && t[b].key != key && i - home > D(t, b)
       && Carrying(t[b := carry], key, t[b], Home(|t|, t[b].key), i + 1)
       && start <= q <= i && Holds(t[b := carry], key, Wrap(|t|, q))
  }

  lemma {:induction false} SwappedElsewhere(t: seq<Entry>, key: Word, slot: Word, carry: Entry, home: nat, i: nat,
                                            start: nat, z: nat, q: nat, t': seq<Entry>, e: Entry, home': nat)
    requires slot != 0 && SwapsOn(t, key, carry, home, i, start, z, q) && !Trap(t, i)
    requires t' == t[Wrap(|t|, i) := carry] && e == t[Wrap(|t|, i)] && home' == Home(|t|, e.key)
    ensures EndsIn(Rest(t, key, slot, carry, home, i), key, Contents(t')[e.key := e.slot], TrapAhead(t, i, z))
    decreases 2 * |t| - i, 0
  {
    SwapWalksOn(t, key, carry, home, i, start, z, q);
    CarryExact(t', key, slot, e, home', i + 1, start, z, q);
    SwapUnfolded(t, key, slot, carry, home, i);
  }

  /** From a swap at `i` on: at a trap the loop bound has moved behind the walk, elsewhere the walk goes on. */
  lemma {:induction false} SwappedEnds(t: seq<Entry>, key: Word, slot: Word, carry: Entry, home: nat, i: nat,
                                       start: nat, z: nat, q: nat)
    requires slot != 0 && SwapsOn(t, key, carry, home, i, start, z, q)
    ensures var b := Wrap(|t|, i);
            EndsIn(Rest(t, key, slot, carry, home, i), key,
                   Contents(t[b := carry])[t[b].key := t[b].slot], TrapAhead(t, i, z))
    decreases 2 * |t| - i, 1
  {
    var b := Wrap(|t|, i);
    if Trap(t, i) {
      SwappedAtTrap(t, key, slot, carry, home, i, z);
    } else {
      SwappedElsewhere(t, key, slot, carry, home, i, start, z, q, t[b := carry], t[b],
                       Home(|t|, t[b].key));
    }
  }

  lemma FirstSwapExact(t: seq<Entry>, key: Word, slot: Word, i: nat, z: nat)
    requires slot != 0 && WellFormed(t) && Passed(t, key, i) && FirstEmpty(t, Home(|t|, key), i, z) && i < z
    requires var b := Wrap(|t|, i); t[b].key != key && i - Home(|t|, key) > D(t, b)
    ensures EndsIn(Rest(t, key, slot, Entry(key, slot), Home(|t|, key), i), key,
                   Contents(t)[key := slot], TrapAhead(t, i, z))
  {
    var b, home, e := Wrap(|t|, i), Home(|t|, key), Entry(key, slot);
    FirstSwap(t, key, slot, i);
    SwapContents(t, b, e);
    assert Holds(t[b := e], key, b);
    SwappedEnds(t, key, slot, e, home, i, home, z, i);
  }

  lemma PassesExact(t: seq<Entry>, key: Word, slot: Word, e: Entry, home: nat, i: nat, z: nat)
    requires |t| > 0 && home == Home(|t|, key) && Absent(t, key)
    requires Passed(t, key, i) && FirstEmpty(t, home, i, z) && i < z && i - home <= D(t, Wrap(|t|, i))
    ensures Passed(t, key, i + 1) && FirstEmpty(t, home, i + 1, z)
    ensures Rest(t, key, slot, e, home, i) == Rest(t, key, slot, e, home, i + 1)
    ensures TrapAhead(t, i + 1, z) <==> TrapAhead(t, i, z)
  {
    assert !Holds(t, key, Wrap(|t|, i));
    PassedMoves(t, key, i);
    RestPasses(t, key, slot, e, home, i);
    assert !Trap(t, i);
  }

  lemma {:induction false} PassedExact(t: seq<Entry>, key: Word, slot: Word, i: nat, z: nat)
    requires slot != 0 && WellFormed(t) && Absent(t, key)
    requires Passed(t, key, i) && FirstEmpty(t, Home(|t|, key), i, z)
    ensures EndsIn(Rest(t, key, slot, Entry(key, slot), Home(|t|, key), i), key,
                   Contents(t)[key := slot], TrapAhead(t, i, z))
    decreases 2 * |t| - i
  {
    var b := Wrap(|t|, i);
    if i == z {
      FirstPlace(t, key, slot, i);
    } else if i - Home(|t|, key) > D(t, b) {
      assert !Holds(t, key, b);
      FirstSwapExact(t, key, slot, i, z);
    } else {
      PassesExact(t, key, slot, Entry(key, slot), Home(|t|, key), i, z);
      PassedExact(t, key, slot, i + 1, z);
    }
  }

  /**
   The state in which an insertion at `home` loses an entry: every bucket from `home` to the end is taken,
   and so are the buckets from the start of the table up to one whose entry is not itself wrapped round.
   */
  ghost predicate Hazard(t: seq<Entry>, home: nat) {
    && (forall b: nat :: home <= b < |t| ==> !Empty(t[b]))
    && exists b: nat :: TakenUpTo(t, b) && Home(|t|, t[b].key) <= b
  }

  ghost predicate TakenUpTo(t: seq<Entry>, b: nat) {
    b < |t| && forall c: nat :: c <= b ==> !Empty(t[c])
  }

  lemma {:induction false} EmptyAhead(t: seq<Entry>, start: nat, i: nat, last: nat) returns (z: nat)
    requires start < |t| && start <= i <= last < start + |t| && Empty(t[Wrap(|t|, last)])
    ensures FirstEmpty(t, start, i, z)
    decreases last - i
  {
    if Empty(t[Wrap(|t|, i)]) {
      z := i;
    } else {
      z := EmptyAhead(t, start, i + 1, last);
      assert FirstEmpty(t, start, i, z);
    }
  }

  lemma HazardIsTrap(t: seq<Entry>, home: nat, z: nat)
    requires FirstEmpty(t, home, home, z)
    ensures TrapAhead(t, home, z) <==> Hazard(t, home)
  {
    var n := |t|;
    if TrapAhead(t, home, z) {
      var k: nat :| home <= k < z && Trap(t, k);
      var b := k - n;
      forall c: nat | home <= c < n ensures !Empty(t[c]) {
        assert t[Wrap(n, c)] == t[c];
      }
      forall c: nat | c <= b ensures !Empty(t[c]) {
        assert t[Wrap(n, c + n)] == t[c];
      }
      assert TakenUpTo(t, b) && Home(n, t[b].key) <= b;
    }
    if Hazard(t, home) {
      var b: nat :| TakenUpTo(t, b) && Home(n, t[b].key) <= b;
      assert Wrap(n, z) == if z < n then z else z - n;
      assert Trap(t, b + n);
    }
  }

  /**
   Exact outcome of an insertion while some bucket is empty: it fails if and only if the key is new and
   the table is in the hazard state for its home. A success is exactly the map update. A failure still
   stores the new key, and exactly one older entry, the one in hand, is missing.
   */
  lemma PutExact(t: seq<Entry>, key: Word, slot: Word)
    requires |t| > 0 && slot != 0 && WellFormed(t) && HasEmpty(t)
    ensures var r := Put(t, key, slot);
      && WellFormed(r.table)
      && (r.Full? <==> key !in Contents(t) && Hazard(t, Home(|t|, key)))
      && (r.Stored? ==> Contents(r.table) == Contents(t)[key := slot] && (r.added <==> key !in Contents(t)))
      && (r.Full? ==> && r.lost.key != key && r.lost.key in Contents(t) && Contents(t)[r.lost.key] == r.lost.slot
                      && Contents(r.table) == Contents(t)[key := slot] - {r.lost.key})
  {
    var home := Home(|t|, key);
    if key in Contents(t) {
      PutPresent(t, key, slot);
      PutKeepsOrder(t, key, slot);
    } else {
      var e: nat :| e < |t| && Empty(t[e]);
      var last := if home <= e then e else e + |t|;
      var z := EmptyAhead(t, home, home, last);
      LacksAbsent(t, key);
      PassedExact(t, key, slot, home, z);
      HazardIsTrap(t, home, z);
      var r := Put(t, key, slot);
      assert r == Rest(t, key, slot, Entry(key, slot), home, home);
      if r.Full? {
        LostEntry(Contents(r.table), Contents(t), key, slot, r.lost);
        ContentsLacks(r.table, r.lost.key);
      }
    }
  }

  lemma LostEntry(after: map<Word, Word>, before: map<Word, Word>, key: Word, slot: Word, lost: Entry)
    requires after[lost.key := lost.slot] == before[key := slot] && lost.key != key
    ensures lost.key in before && before[lost.key] == lost.slot
    ensures lost.key !in after ==> after == before[key := slot] - {lost.key}
  {
    var m := after[lost.key := lost.slot];
    assert lost.key in m && m[lost.key] == lost.slot;
    assert lost.key !in after ==> after == m - {lost.key};
  }

  // ---------- A full table ----------

  lemma FullTableCannotGrow(t: seq<Entry>, t': seq<Entry>, key: Word, slot: Word)
    requires Unique(t) && Unique(t') && |t'| == |t| && !HasEmpty(t) && key !in Contents(t)
    ensures Contents(t') != Contents(t)[key := slot]
  {
    ContentsCount(t);
    ContentsCount(t');
    NoEmptyCount(t);
    OccupiedBound(t');
    assert |Contents(t)[key := slot]| == |Contents(t)| + 1;
  }

  /** A walk on a full table, with an entry in hand: every bucket stays taken, and nothing but `m` is in them. */
  ghost predicate StaysFull(r: Outcome, key: Word, m: map<Word, Word>) {
    && Occupied(r.table) == |r.table| && Submap(Contents(r.table), m) && key in Contents(r.table)
    && (r.Stored? ==> !r.added)
  }

  /** The walk of a key that is in the table already, with `carry` in hand, and all entries together. */
  ghost predicate WalksFull(t: seq<Entry>, key: Word, slot: Word, carry: Entry, home: nat, i: nat,
                            m: map<Word, Word>) {
    && slot != 0 && Carrying(t, key, carry, home, i) && Occupied(t) == |t|
    && m == Contents(t)[carry.key := carry.slot] && key in m && m[key] == slot
  }

  lemma KeepsFull(t: seq<Entry>, b: nat, e: Entry)
    requires b < |t| && Occupied(t) == |t| && !Empty(e)
    ensures Occupied(t[b := e]) == |t| && !Empty(t[b])
  {
    var t' := t[b := e];
    NoEmptyCount(t);
    NoEmptyCount(t');
    forall c: nat | c < |t'| ensures !Empty(t'[c]) {
      assert c != b ==> !Empty(t[c]);
    }
  }

  lemma FullGivesUp(t: seq<Entry>, key: Word, slot: Word, carry: Entry, home: nat, i: nat, m: map<Word, Word>)
    requires WalksFull(t, key, slot, carry, home, i, m)
    ensures StaysFull(Full(t, carry), key, m)
  {
    ContentsLacks(t, carry.key);
    CarriedKey(t, key);
  }

  lemma FullOverwrites(t: seq<Entry>, key: Word, slot: Word, carry: Entry, home: nat, i: nat, m: map<Word, Word>,
                       b: nat)
    requires WalksFull(t, key, slot, carry, home, i, m) && b < |t| && t[b].key == key
    ensures StaysFull(Stored(t[b := Entry(key, slot)], false), key, m)
  {
    FullGivesUp(t, key, slot, carry, home, i, m);
    KeepsFull(t, b, Entry(key, slot));
    OverwriteKeeps(t, key, slot, b);
    assert Holds(t, key, b);
    assert carry.key != key;
    assert Contents(t)[key := slot] == Contents(t);
  }

  lemma FullSwaps(t: seq<Entry>, key: Word, slot: Word, carry: Entry, home: nat, i: nat, m: map<Word, Word>,
                  t': seq<Entry>, e: Entry)
    requires WalksFull(t, key, slot, carry, home, i, m) && i + 1 < 2 * |t|
    requires var b := Wrap(|t|, i);
      t[b].key != key && Dist(|t|, home, b) > D(t, b) && t' == t[b := carry] && e == t[b]
    ensures WalksFull(t', key, slot, e, Home(|t|, e.key), i + 1, m)
  {
    var b := Wrap(|t|, i);
    KeepsFull(t, b, carry);
    CarrySwapped(t, key, carry, home, i);
    SwapContents(t, b, carry);
  }

  lemma FullPasses(t: seq<Entry>, key: Word, slot: Word, carry: Entry, home: nat, i: nat, m: map<Word, Word>)
    requires WalksFull(t, key, slot, carry, home, i, m) && i + 1 < 2 * |t|
    requires Dist(|t|, home, Wrap(|t|, i)) <= D(t, Wrap(|t|, i))
    ensures WalksFull(t, key, slot, carry, home, i + 1, m)
  {
    KeepsFull(t, Wrap(|t|, i), carry);
    CarryMoves(t, key, carry, home, i);
  }

  predicate Goes(t: seq<Entry>, key: Word, home: nat, i: nat)
    requires home < |t|
  {
    i < home + |t| && !Empty(t[Wrap(|t|, i)]) && t[Wrap(|t|, i)].key != key
  }

  /** One step of such a walk. */
  lemma FullStep(t: seq<Entry>, key: Word, slot: Word, carry: Entry, home: nat, i: nat, m: map<Word, Word>)
    returns (t': seq<Entry>, carry': Entry, home': nat)
    requires WalksFull(t, key, slot, carry, home, i, m) && Goes(t, key, home, i)
    ensures |t'| == |t| && i + 1 < 2 * |t| && WalksFull(t', key, slot, carry', home', i + 1, m)
    ensures Rest(t, key, slot, carry, home, i) == Rest(t', key, slot, carry', home', i + 1)
  {
    var b := Wrap(|t|, i);
    if Dist(|t|, home, b) > D(t, b) {
      t', carry', home' := t[b := carry], t[b], Home(|t|, t[b].key);
      FullSwaps(t, key, slot, carry, home, i, m, t', carry');
      RestSwaps(t, key, slot, carry, home, i, t');
    } else {
      t', carry', home' := t, carry, home;
      FullPasses(t, key, slot, carry, home, i, m);
      RestPasses(t, key, slot, carry, home, i);
    }
  }

  lemma FullStops(t: seq<Entry>, key: Word, slot: Word, carry: Entry, home: nat, i: nat, m: map<Word, Word>)
    requires WalksFull(t, key, slot, carry, home, i, m) && !Goes(t, key, home, i)
    ensures StaysFull(Rest(t, key, slot, carry, home, i), key, m)
  {
    if i < home + |t| {
      KeepsFull(t, Wrap(|t|, i), carry);
      FullOverwrites(t, key, slot, carry, home, i, m, Wrap(|t|, i));
      RestOverwrites(t, key, slot, carry, home, i);
    } else {
      FullGivesUp(t, key, slot, carry, home, i, m);
    }
  }

  lemma CarryFull(t: seq<Entry>, key: Word, slot: Word, carry: Entry, home: nat, i: nat, m: map<Word, Word>,
                  r: Outcome)
    requires WalksFull(t, key, slot, carry, home, i, m) && r == Rest(t, key, slot, carry, home, i)
    ensures StaysFull(r, key, m)
  {
    var u, e, h, k := t, carry, home, i;
    while Goes(u, key, h, k)
      invariant WalksFull(u, key, slot, e, h, k, m) && r == Rest(u, key, slot, e, h, k)
      decreases 2 * |u| - k
    {
      u, e, h := FullStep(u, key, slot, e, h, k, m);
      k := k + 1;
    }
    FullStops(u, key, slot, e, h, k, m);
  }

  lemma CarriedKey(t: seq<Entry>, key: Word)
    requires Unique(t) && !Absent(t, key)
    ensures key in Contents(t)
  {
    var b: nat :| Holds(t, key, b);
    ContentsHas(t, key, b);
  }

  /** The walk of a new key goes on: it has met nothing further from its home than the key is from its own. */
  ghost predicate PassesOn(t: seq<Entry>, key: Word, i: nat)
    requires |t| > 0
  {
    i < Home(|t|, key) + |t| && Dist(|t|, Home(|t|, key), Wrap(|t|, i)) <= D(t, Wrap(|t|, i))
  }

  /** A walk with result `r` that has come to `k` without a swap, on a full table. */
  ghost predicate Unswapped(t: seq<Entry>, key: Word, slot: Word, e: Entry, k: nat, r: Outcome) {
    && |t| > 0 && Occupied(t) == |t| && Absent(t, key)
    && Passed(t, key, k) && k <= 2 * |t| && r == Rest(t, key, slot, e, Home(|t|, key), k)
  }

  lemma PassStep(t: seq<Entry>, key: Word, slot: Word, e: Entry, k: nat, r: Outcome)
    requires Unswapped(t, key, slot, e, k, r) && PassesOn(t, key, k)
    ensures Unswapped(t, key, slot, e, k + 1, r) && k < 2 * |t|
  {
    NewKey(t, key, Wrap(|t|, k));
    PassedMoves(t, key, k);
    RestPasses(t, key, slot, e, Home(|t|, key), k);
  }

  /** It comes to its first swap, or all the way round. */
  lemma FirstSwapAt(t: seq<Entry>, key: Word, slot: Word, e: Entry, home: nat, r: Outcome) returns (k: nat)
    requires Unswapped(t, key, slot, e, home, r)
    ensures Unswapped(t, key, slot, e, k, r) && !PassesOn(t, key, k)
  {
    k := home;
    while PassesOn(t, key, k)
      invariant Unswapped(t, key, slot, e, k, r)
      decreases 2 * |t| - k
    {
      PassStep(t, key, slot, e, k, r);
      k := k + 1;
    }
  }

  lemma FullFirstSwap(t: seq<Entry>, key: Word, slot: Word, i: nat) returns (t': seq<Entry>, e: Entry, home: nat)
    requires slot != 0 && WellFormed(t) && Passed(t, key, i) && Occupied(t) == |t| && Absent(t, key)
    requires !PassesOn(t, key, i) && i < Home(|t|, key) + |t|
    ensures |t'| == |t| && i + 1 < 2 * |t|
    ensures WalksFull(t', key, slot, e, home, i + 1, Contents(t)[key := slot])
    ensures Rest(t, key, slot, Entry(key, slot), Home(|t|, key), i) == Rest(t', key, slot, e, home, i + 1)
  {
    var b := Wrap(|t|, i);
    t', e, home := t[b := Entry(key, slot)], t[b], Home(|t|, t[b].key);
    NewKey(t, key, b);
    KeepsFull(t, b, Entry(key, slot));
    FirstSwap(t, key, slot, i);
    SwapContents(t, b, Entry(key, slot));
    RestSwaps(t, key, slot, Entry(key, slot), Home(|t|, key), i, t');
  }

  /** On a full table the walk of a new key stores it at the first swap, or changes nothing. */
  lemma PassedFull(t: seq<Entry>, key: Word, slot: Word)
    requires |t| > 0 && slot != 0 && WellFormed(t) && Occupied(t) == |t| && Absent(t, key)
    ensures var r := Put(t, key, slot);
      r == Full(t, Entry(key, slot)) || StaysFull(r, key, Contents(t)[key := slot])
  {
    var k := FirstSwapAt(t, key, slot, Entry(key, slot), Home(|t|, key), Put(t, key, slot));
    if k < Home(|t|, key) + |t| {
      var t', e, home := FullFirstSwap(t, key, slot, k);
      CarryFull(t', key, slot, e, home, k + 1, Contents(t)[key := slot], Put(t, key, slot));
    }
  }

  lemma NewKey(t: seq<Entry>, key: Word, b: nat)
    requires Occupied(t) == |t| && Absent(t, key) && b < |t|
    ensures !Empty(t[b]) && t[b].key != key
  {
    NoEmptyCount(t);
    assert !Holds(t, key, b);
  }

  lemma OneMissing(a: map<Word, Word>, b: map<Word, Word>) returns (k: Word)
    requires Submap(a, b) && |b| == |a| + 1
    ensures k in b && a == b - {k}
  {
    var rest := b.Keys - a.Keys;
    assert a.Keys <= b.Keys;
    assert |rest| == |b.Keys| - |a.Keys|;
    k :| k in rest;
    assert |rest - {k}| == 0;
    assert (b - {k}).Keys == a.Keys;
  }

  lemma LacksAbsent(t: seq<Entry>, key: Word)
    requires Unique(t) && key !in Contents(t)
    ensures Absent(t, key)
  {
    forall b: nat ensures !Holds(t, key, b) {
      if Holds(t, key, b) {
        ContentsHas(t, key, b);
      }
    }
  }

  /**
   A new key on a full table costs exactly one entry: itself, when the table stays as it is and the insertion fails,
   or an older one, whether the insertion reports success or not.
   */
  lemma PutFull(t: seq<Entry>, key: Word, slot: Word) returns (lost: Word)
    requires |t| > 0 && slot != 0 && WellFormed(t) && !HasEmpty(t) && key !in Contents(t)
    ensures var r := Put(t, key, slot);
      && WellFormed(r.table) && !HasEmpty(r.table)
      && lost in Contents(t)[key := slot] && Contents(r.table) == Contents(t)[key := slot] - {lost}
      && (r.Stored? ==> !r.added && lost != key)
      && (lost == key ==> r.table == t)
  {
    var m, r := Contents(t)[key := slot], Put(t, key, slot);
    LacksAbsent(t, key);
    PutKeepsOrder(t, key, slot);
    NoEmptyCount(t);
    NoEmptyCount(r.table);
    PassedFull(t, key, slot);
    if r == Full(t, Entry(key, slot)) {
      lost := key;
    } else {
      ContentsCount(t);
      ContentsCount(r.table);
      lost := OneMissing(Contents(r.table), m);
    }
  }

  /**
   An insertion that reports success is the map update if and only if the key was present or some bucket was
   empty: on a full table the walk can come round to the key it has just stored, take that for an overwrite,
   and drop the entry in hand.
   */
  lemma SuccessIsUpdateIff(t: seq<Entry>, key: Word, slot: Word)
    requires |t| > 0 && slot != 0 && WellFormed(t) && Put(t, key, slot).Stored?
    ensures Contents(Put(t, key, slot).table) == Contents(t)[key := slot]
       <==> key in Contents(t) || HasEmpty(t)
  {
    if key in Contents(t) {
      PutPresent(t, key, slot);
    } else if HasEmpty(t) {
      PutExact(t, key, slot);
    } else {
      PutKeepsOrder(t, key, slot);
      FullTableCannotGrow(t, Put(t, key, slot).table, key, slot);
    }
  }

  ghost function Minus<V>(m: map<Word, V>, lost: Option<Word>): map<Word, V> {
    if lost.Some? then m - {lost.value} else m
  }

  /**
   What an insertion does to any ordered table, full ones included: it updates the map and loses at most one entry.
   It loses none if and only if the key was present, or some bucket was empty and the table not in the hazard state.
   */
  lemma PutEffect(t: seq<Entry>, key: Word, slot: Word) returns (lost: Option<Word>)
    requires |t| > 0 && slot != 0 && WellFormed(t)
    ensures var r := Put(t, key, slot);
      && WellFormed(r.table) && Contents(r.table) == Minus(Contents(t)[key := slot], lost)
      && (lost.Some? <==> key !in Contents(t) && (HasEmpty(t) ==> Hazard(t, Home(|t|, key))))
      && (lost.Some? ==> lost.value in Contents(t)[key := slot])
      && (r.Stored? ==> lost != Some(key) && (r.added <==> key !in Contents(t) && HasEmpty(t)))
      && (key in Contents(t) || HasEmpty(t) ==> lost != Some(key) && (r.Stored? <==> lost.None?))
  {
    if key in Contents(t) {
      lost := None;
      PutPresent(t, key, slot);
      PutKeepsOrder(t, key, slot);
    } else if HasEmpty(t) {
      var r := Put(t, key, slot);
      PutExact(t, key, slot);
      lost := if r.Full? then Some(r.lost.key) else None;
    } else {
      var k := PutFull(t, key, slot);
      lost := Some(k);
    }
  }

  lemma MinusCount<V>(m: map<Word, V>, key: Word, slot: V, lost: Option<Word>)
    requires lost.Some? ==> key !in m && lost.value in m[key := slot]
    ensures |Minus(m[key := slot], lost)| == |m| + if key in m || lost.Some? then 0 else 1
  {
    var u := m[key := slot];
    assert u.Keys == m.Keys + {key};
    if lost.Some? {
      assert (u - {lost.value}).Keys == u.Keys - {lost.value};
    }
  }

  /** An insertion takes one more bucket if and only if the key is new and nothing is lost. */
  lemma PutCount(t: seq<Entry>, key: Word, slot: Word) returns (lost: Option<Word>)
    requires |t| > 0 && slot != 0 && WellFormed(t)
    ensures var r := Put(t, key, slot);
      && Occupied(r.table) == Occupied(t) + (if key in Contents(t) || lost.Some? then 0 else 1)
      && WellFormed(r.table) && Contents(r.table) == Minus(Contents(t)[key := slot], lost)
      && (lost.Some? <==> key !in Contents(t) && (HasEmpty(t) ==> Hazard(t, Home(|t|, key))))
  {
    lost := PutEffect(t, key, slot);
    ContentsCount(t);
    ContentsCount(Put(t, key, slot).table);
    MinusCount(Contents(t), key, slot, lost);
  }

  // ---------- Witnesses ----------

  /** Four buckets, two entries: inserting key 7 fails and drops key 4. */
  lemma HazardWitness(a: Word, b: Word, c: Word)
    requires a != 0 && b != 0 && c != 0
    ensures var t := [Entry(4, a), EMPTY, EMPTY, Entry(3, b)];
            WellFormed(t) && HasEmpty(t) &&
            Put(t, 7, c) == Full([Entry(7, c), EMPTY, EMPTY, Entry(3, b)], Entry(4, a))
  {
    var t := [Entry(4, a), EMPTY, EMPTY, Entry(3, b)];
    assert Home(4, 4) == 0 && Home(4, 3) == 3 && Home(4, 7) == 3;
    assert Empty(t[1]);
    var t' := t[0 := Entry(7, c)];
    calc {
      Put(t, 7, c);
      InsertFrom(t, 7, c, Entry(7, c), 3, 3);
      InsertFrom(t, 7, c, Entry(7, c), 3, 4);
      InsertFrom(t', 7, c, Entry(4, a), 0, 5);
      Full(t', Entry(4, a));
    }
  }

  /** A full table: every entry is at home but the one in bucket 0, which belongs in the last bucket. */
  ghost predicate OneWrapped(t: seq<Entry>) {
    && |t| > 2 && Unique(t) && (forall b: nat :: b < |t| ==> !Empty(t[b]))
    && Home(|t|, t[0].key) == |t| - 1 && forall b: nat :: 1 <= b < |t| ==> D(t, b) == 0
  }

  /** The table once the walk of `e` has moved the entries from bucket 1 up to bucket `i` by one. */
  ghost function MovedUpTo(t: seq<Entry>, e: Entry, i: nat): seq<Entry>
    requires 2 <= i <= |t|
  {
    [t[0]] + [e] + t[1..i - 1] + t[i..]
  }

  lemma MovedAt(t: seq<Entry>, e: Entry, i: nat)
    requires 2 <= i <= |t|
    ensures |MovedUpTo(t, e, i)| == |t|
    ensures MovedUpTo(t, e, i)[0] == t[0] && MovedUpTo(t, e, i)[1] == e
    ensures i < |t| ==> MovedUpTo(t, e, i)[i] == t[i]
    ensures i < |t| ==> MovedUpTo(t, e, i + 1) == MovedUpTo(t, e, i)[i := t[i - 1]]
  {
  }

  lemma RoundSwap(t: seq<Entry>, u: seq<Entry>, u': seq<Entry>, key: Word, slot: Word, i: nat)
    requires OneWrapped(t) && 2 <= i < |t| && |u| == |t| && u[i] == t[i] && u' == u[i := t[i - 1]] && t[i].key != key
    ensures Rest(u, key, slot, t[i - 1], i - 1, i) == Rest(u', key, slot, t[i], i, i + 1)
  {
    assert D(t, i) == 0 && Dist(|t|, i - 1, i) == 1 && D(u, i) == D(t, i);
    RestSwaps(u, key, slot, t[i - 1], i - 1, i, u');
  }

  lemma RoundWalk(t: seq<Entry>, key: Word, slot: Word, e: Entry)
    requires OneWrapped(t) && Absent(t, key) && Home(|t|, key) == 0 && e == Entry(key, slot)
    ensures Rest(MovedUpTo(t, e, 2), key, slot, t[1], 1, 2)
         == Rest(MovedUpTo(t, e, |t|), key, slot, t[|t| - 1], |t| - 1, |t|)
  {
    var i := 2;
    while i < |t|
      invariant 2 <= i <= |t| && |MovedUpTo(t, e, i)| == |t|
      invariant Rest(MovedUpTo(t, e, 2), key, slot, t[1], 1, 2)
             == Rest(MovedUpTo(t, e, i), key, slot, t[i - 1], i - 1, i)
    {
      MovedAt(t, e, i);
      assert !Holds(t, key, i);
      RoundSwap(t, MovedUpTo(t, e, i), MovedUpTo(t, e, i + 1), key, slot, i);
      i := i + 1;
    }
  }

  lemma RoundStart(t: seq<Entry>, key: Word, slot: Word, e: Entry)
    requires OneWrapped(t) && Absent(t, key) && Home(|t|, key) == 0 && e == Entry(key, slot)
    ensures Rest(t, key, slot, e, 0, 0) == Rest(MovedUpTo(t, e, 2), key, slot, t[1], 1, 2)
  {
    assert !Holds(t, key, 0) && !Holds(t, key, 1);
    assert D(t, 0) == 1 && D(t, 1) == 0;
    RestPasses(t, key, slot, e, 0, 0);
    RestSwaps(t, key, slot, e, 0, 1, t[1 := e]);
    assert MovedUpTo(t, e, 2) == t[1 := e];
  }

  lemma RoundEnd(t: seq<Entry>, u: seq<Entry>, key: Word, slot: Word, c: Entry)
    requires |u| == |t| > 2 && u[0] == t[0] && u[1] == Entry(key, slot) && slot != 0
    requires !Empty(t[0]) && t[0].key != key && Home(|t|, t[0].key) == |t| - 1
    ensures Rest(u, key, slot, c, |t| - 1, |t|) == Stored(u, false)
  {
    assert D(u, 0) == 1 && Dist(|t|, |t| - 1, 0) == 1;
    RestPasses(u, key, slot, c, |t| - 1, |t|);
    RestOverwrites(u, key, slot, c, |t| - 1, |t| + 1);
    assert u[1 := Entry(key, slot)] == u;
  }

  /**
   Full tables of any size on which an insertion reports success and drops another key: the new key pushes every
   entry on by one, and the walk comes round to it with the entry of the last bucket in hand.
   */
  lemma FullTableWitness(t: seq<Entry>, key: Word, slot: Word)
    requires OneWrapped(t) && Absent(t, key) && Home(|t|, key) == 0 && slot != 0
    ensures WellFormed(t)
    ensures Put(t, key, slot) == Stored([t[0], Entry(key, slot)] + t[1..|t| - 1], false)
  {
    var e := Entry(key, slot);
    assert D(t, 0) == 1;
    RoundStart(t, key, slot, e);
    RoundWalk(t, key, slot, e);
    MovedAt(t, e, |t|);
    assert !Holds(t, key, 0);
    RoundEnd(t, MovedUpTo(t, e, |t|), key, slot, t[|t| - 1]);
    assert MovedUpTo(t, e, |t|) == [t[0], e] + t[1..|t| - 1];
  }
}
