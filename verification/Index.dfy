/**
 The index of `src/ef_index.c` on mapped memory, used by one thread at a time: put, get, remove, clear, rehash
 and shrink. `Sound` is the invariant of every run. The entry counter is exact in `Valid` states; a rehash that gets
 stuck can leave it wrong, and removals drop that failure.
 */
module Index {
  import opened Base
  import opened RobinHood
  import opened RobinHoodPut
  import opened IndexTable
  import opened IndexSizing
  import opened Rebuild
  import opened Hazards
  import opened FullTables
  import opened IndexMemory
  import RobinHoodRemove
  import Slots

  // ---------- Tables and counters ----------

  /** A table, and the entry counter of the handle. */
  datatype Counted = Counted(table: seq<Entry>, count: nat)

  /** After `ef_index_remove_by_hash`. */
  ghost function Removed(s: Counted, key: Word): Counted {
    if |s.table| > 0 && RobinHoodRemove.Remove(s.table, key).Some? then
      Counted(RobinHoodRemove.Remove(s.table, key).value, if s.count > 0 then s.count - 1 else 0)
    else s
  }

  function CountAfter(err: Err, count: nat): nat {
    if err == Ok && count > 0 then count - 1 else count
  }

  /** With one key removed, or as it is. */
  ghost function WithoutKey(s: Counted, dropped: Option<Word>): Counted {
    if dropped.Some? then Removed(s, dropped.value) else s
  }

  /** A table that counts as sparse is due to shrink to capacity `c`, the least for its count. */
  ghost predicate ShrinksTo(count: nat, capacity: nat, c: nat) {
    ShouldShrink(count, capacity) && LeastFor(count, c) && c < capacity && (count != 0 ==> 4 * count < 3 * c)
  }

  /** That capacity, or zero. */
  ghost function ShrinkTarget(count: nat, capacity: nat): (c: nat)
    ensures c > 0 ==> ShrinksTo(count, capacity, c)
  {
    if c: nat :| ShrinksTo(count, capacity, c) then c else 0
  }

  /**
   After the shrink that follows a removal. When reinsertion fails, the counter is left as the new layout has been
   bound: it counts the buckets of the old table that are within the new size.
   */
  ghost function Shrunk(s: Counted): Counted {
    ShrunkTo(s, ShrinkTarget(s.count, |s.table|))
  }

  ghost function ShrunkTo(s: Counted, n: nat): Counted
    requires n <= |s.table|
  {
    if n == 0 then s
    else
      var r := Rehashed(s.table, SlotsBase(|s.table|), SlotsBase(n), n);
      Counted(r.table, if r.ok then Occupied(s.table) else Occupied(s.table[..n]))
  }

  /** It loses keys. */
  ghost predicate ShrinkLoses(s: Counted) {
    var n := ShrinkTarget(s.count, |s.table|);
    n > 0 && Loses(s.table, n)
  }

  /** The key of the first bucket with this offset. */
  ghost predicate FirstNaming(t: seq<Entry>, offset: nat, key: Word) {
    exists b: nat :: b < |t| && t[b].slot == offset && t[b].key == key && forall a: nat :: a < b ==> t[a].slot != offset
  }

  /** The table and the result of the insertion loop, and when it is a success for a new key on a full table. */
  ghost predicate Inserted(t: seq<Entry>, key: Word, offset: Word, t': seq<Entry>, err: Err)
    requires |t| > 0
  {
    var r := RobinHoodPut.Put(t, key, offset);
    && t' == r.table && err == (if r.Stored? then Ok else IndexFull)
    && (!HasEmpty(t) && key !in Contents(t) ==> (err == Ok <==> Slips(t, Home(|t|, key))))
  }

  /**
   What an insertion that reaches a table of `n` buckets does to the map: the update, less the key that may be lost.
   One is lost if and only if the key is new and meets a full table or the hazard state. With room for the key, that is
   exactly when the insertion fails.
   */
  ghost predicate InsertMeans(m: map<Word, Option<nat>>, n: nat, key: Word, slotId: nat, m': map<Word, Option<nat>>,
      err: Err, lost: Option<Word>)
    requires n > 0
  {
    && m' == Minus(m[key := Some(slotId)], lost) && (err == Ok || err == IndexFull)
    && (lost.Some? <==> key !in m && (|m| < n ==> KeyHazard(n, m.Keys, Home(n, key))))
    && (lost.Some? ==> lost.value in m || lost.value == key)
    && (key in m || |m| < n ==> lost != Some(key) && (err == Ok <==> lost.None?))
    && (err == Ok ==> lost != Some(key))
  }

  /** A reported success is the map update if and only if there was room for the key. */
  lemma SuccessMeans(m: map<Word, Option<nat>>, n: nat, key: Word, slotId: nat, m': map<Word, Option<nat>>, err: Err,
      lost: Option<Word>)
    requires n > 0 && InsertMeans(m, n, key, slotId, m', err, lost) && err == Ok
    ensures m' == m[key := Some(slotId)] <==> key in m || |m| < n
  {
    if lost.Some? {
      assert lost.value in m[key := Some(slotId)] && lost.value !in m';
    }
  }

  lemma TargetIs(count: nat, capacity: nat, c: nat)
    requires LeastFor(count, c)
    ensures ShrinksTo(count, capacity, c) ==> ShrinkTarget(count, capacity) == c
    ensures !ShrinksTo(count, capacity, c) ==> ShrinkTarget(count, capacity) == 0
  {
    forall d: nat | LeastFor(count, d) ensures d == c {
      LeastIsUnique(count, c, d);
    }
  }

  /**
   The counter behind a shrink of a table whose counter was exact: it is exact again, unless keys are lost; and then
   if and only if the first buckets happened to hold as many entries as were placed.
   */
  lemma CounterAfterShrink(s: Counted, maxSlots: nat)
    requires |s.table| > 0 && WellFormed(s.table) && s.count == Occupied(s.table)
    requires AllName(Contents(s.table), SlotsBase(|s.table|), maxSlots)
    requires SlotsBase(|s.table|) + maxSlots * SLOT_SIZE <= WORD
    ensures var u := Shrunk(s);
      u.count == Occupied(u.table) <==>
        (ShrinkLoses(s) ==> var n := ShrinkTarget(s.count, |s.table|); Occupied(s.table[..n]) == Kept(s.table, n))
  {
    var n := ShrinkTarget(s.count, |s.table|);
    if n > 0 {
      RehashMeaning(s.table, SlotsBase(|s.table|), SlotsBase(n), n, maxSlots);
      KeptMeans(s.table, n);
    }
  }

  /** A removal in terms of slots, and the counter. */
  lemma RemovedMeans(s: Counted, base: nat, maxSlots: nat, m: map<Word, Option<nat>>, key: Word, t: seq<Entry>)
    requires StandsFor(s.table, base, maxSlots, m) && |s.table| > 0
    requires var r := RobinHoodRemove.Remove(s.table, key); t == if r.Some? then r.value else s.table
    ensures StandsFor(t, base, maxSlots, m - {key}) && |t| == |s.table| && (key !in m ==> t == s.table)
    ensures Removed(s, key) == Counted(t, CountAfter(if key in m then Ok else NotFound, s.count))
  {
    RemoveMeaning(s.table, key, base, maxSlots, m);
  }

  /** An empty index shrinks to 16 buckets. */
  lemma LeastForNone(target: nat, capacity: nat)
    requires capacity > 16 && PowerOfTwo(capacity) && capacity <= 0xFFFF
    requires target == 0 <==> exists c: nat :: LeastFor(0, c) && c >= capacity
    requires target != 0 ==> LeastFor(0, target)
    ensures target == 16
  {
    MinIsPower();
    assert LeastFor(0, 16);
    forall c: nat | LeastFor(0, c) ensures c == 16 {
      LeastIsUnique(0, c, 16);
    }
  }

  lemma EmptyLoses(t: seq<Entry>, n: nat)
    requires AllEmpty(t)
    ensures n > 0 ==> !Loses(t, n)
  {
    AllEmptyCount(t);
    CompactCount(t);
  }

  lemma GrownLoad(count: nat, capacity: nat, target: nat)
    requires count <= capacity && target >= GrowStart(2 * capacity)
    ensures 4 * (count + 1) <= 3 * target
  {
  }

  /** Keys 15, 16 and 31 in 32 buckets: due to shrink to 16, and stuck there, with two entries and a counter of one. */
  lemma ShrinkLosesKeys(t: seq<Entry>)
    requires ThreeKeys(t)
    ensures WellFormed(t) && ShrinkTarget(3, 32) == 16 && ShrinkLoses(Counted(t, 3))
    ensures Kept(t, 16) == 2 && Occupied(t[..16]) == 1
  {
    ShrinkWitness(t);
    LeastForFew(3);
    TargetIs(3, 32, 16);
  }

  lemma LeastForFew(count: nat)
    requires count <= 12
    ensures LeastFor(count, 16)
  {
    MinIsPower();
  }

  /** Twelve keys put one by one into 16 buckets: the next has to grow to 32, and gets stuck. */
  lemma GrowthLosesKeys(t: seq<Entry>)
    requires TwelveKeys(t)
    ensures Yields(seq(16, _ => EMPTY), [t[15]] + t[..11], t)
    ensures NeedsGrow(Occupied(t), 16) && Picked(Occupied(t) + 1, 2 * 16) == 32 && Sticks(t, 32)
  {
    GrowthWitness(t);
    PickedFirst(13, 32);
  }

  /**
   How a rehash to `n` buckets is turned down, for an index of this capacity and count, in a mapping of so many words
   behind the superblock: capacities that are no power of two up to 65535, no index, the wrong direction or too many
   entries, and too little room. Growing to no more than there is counts as done.
   */
  ghost predicate Refuses(n: nat, allowShrink: bool, capacity: nat, count: nat, maxSlots: nat, words: nat, err: Err) {
    var fine := 1 <= n <= 65535 && PowerOfTwo(n);
    && (err == Err.Grow <==> !fine || (allowShrink && 0 < capacity && (n >= capacity || 4 * count >= 3 * n)))
    && (err == NullArg <==> fine && capacity == 0)
    && (err == Ok <==> fine && 0 < capacity && !allowShrink && n <= capacity)
    && (err == FileSize ==> 8 * words < 16 * n + 64 * maxSlots + 32 + 4096 * 32)
    && err in {Err.Grow, NullArg, Ok, FileSize}
  }

  /** Why an index of this capacity does not grow to `target`, where it does not try. */
  ghost function GrowthError(capacity: nat, target: nat): (err: Err)
    ensures err == NullArg <==> capacity == 0
    ensures err == IndexFull <==> capacity > 0 && target == 0
    ensures err == FileSize <==> capacity > 0 && 0 < target <= 65535
    ensures err in {NullArg, IndexFull, FileSize, Err.Grow}
  {
    if capacity == 0 then NullArg else if target == 0 then IndexFull
    else if target > 0xFFFF then Err.Grow else FileSize
  }

  lemma PickedIsPower(entries: nat, capacity: nat)
    requires PowerOfTwo(capacity) && Picked(entries, 2 * capacity) > 0
    ensures PowerOfTwo(Picked(entries, 2 * capacity))
  {
    MinIsPower();
    var k: nat :| capacity == Pow2(k);
    assert 2 * capacity == Pow2(k + 1);
    DoublingOfPower(GrowStart(2 * capacity), Picked(entries, 2 * capacity));
  }

  /** The slots, and those that the superblock names. */
  datatype RegionView = RegionView(slots: seq<SlotView>, free: Option<nat>, head: Option<nat>, tail: Option<nat>)

  /** An open database with an index, used by one thread. */
  class Handle {
    /** The mapped words behind the superblock: hash region, slots, undo segment. */
    const mem: array<Word>
    const maxSlots: nat
    /** Whether slots carry checksums (`EF_FLAG_SLOT_CRC`), and which. */
    const slotCrc: bool
    const crc: Slots.Checksum
    var hashCapacity: nat
    var hashEntryCount: nat
    var slotsBase: nat
    var freeListHead: Word
    var queueHead: Word
    var queueTail: Word
    /** What the index stands for: the slot of each key. */
    ghost var keymap: map<Word, Option<nat>>

    ghost predicate Laid()
      reads this
    {
      Layout(mem.Length, hashCapacity, maxSlots) && slotsBase == SlotsBase(hashCapacity)
    }

    ghost function T(): seq<Entry>
      reads this, mem
      requires Laid()
    {
      Table(mem[..], hashCapacity)
    }

    ghost function State(): Counted
      reads this, mem
      requires Laid()
    {
      Counted(T(), hashEntryCount)
    }

    /** List head, queue words and links are zero or name slots. */
    ghost predicate Linked()
      reads this, mem
      requires Laid()
    {
      && LinkOk(slotsBase, maxSlots, freeListHead) && LinkOk(slotsBase, maxSlots, queueHead)
      && LinkOk(slotsBase, maxSlots, queueTail) && LinksOk(mem[..], hashCapacity, maxSlots)
    }

    /**
     The invariant of every run: an ordered table, where the layout says, which stands for `keymap`. The counter has 16
     bits at most, and may be wrong.
     */
    ghost predicate Sound()
      reads this, mem
    {
      && Laid() && Linked() && StandsFor(T(), slotsBase, maxSlots, keymap)
      && hashEntryCount <= MAX_CAPACITY && (hashCapacity == 0 ==> hashEntryCount == 0)
    }

    ghost predicate Exact()
      reads this
    {
      hashEntryCount == |keymap|
    }

    /** The table stands for `m` already; the map and the counter are still to follow. */
    ghost predicate Pending(m: map<Word, Option<nat>>)
      reads this, mem
    {
      && Laid() && Linked() && StandsFor(T(), slotsBase, maxSlots, m)
      && hashEntryCount <= MAX_CAPACITY && hashCapacity > 0
    }

    /** One more entry keeps the load bound, as the counter has it. */
    ghost predicate RoomForOne()
      reads this
    {
      4 * (hashEntryCount + 1) <= 3 * hashCapacity
    }

    /** Nothing has gone wrong so far: an exact counter, and a load of at most three quarters. */
    ghost predicate Valid()
      reads this, mem
    {
      Sound() && Exact() && 4 * hashEntryCount <= 3 * hashCapacity
    }

    twostate predicate Untouched()
      reads this, mem
    {
      unchanged(this) && mem[..] == old(mem[..])
    }

    /**
     Slots, list head, queue words and links are where the capacity says, and name the slots that they named before.
     A rehash that succeeded has renewed the checksums, and every slot passes the reader's test with its new link; one
     that got stuck has left the old ones on rewritten links.
     */
    twostate predicate Relocated(renewed: bool)
      reads this, mem
      requires old(Laid()) && Laid()
    {
      && (hashCapacity != old(hashCapacity) ==>
            RegionMoved(old(mem[..]), old(hashCapacity), mem[..], hashCapacity, renewed))
      && Names(slotsBase, maxSlots, freeListHead) == old(Names(slotsBase, maxSlots, freeListHead))
      && Names(slotsBase, maxSlots, queueHead) == old(Names(slotsBase, maxSlots, queueHead))
      && Names(slotsBase, maxSlots, queueTail) == old(Names(slotsBase, maxSlots, queueTail))
    }

    ghost predicate RegionMoved(m: seq<Word>, capacity: nat, m': seq<Word>, capacity': nat, renewed: bool)
      requires SlotAt(capacity, maxSlots) <= |m| && SlotAt(capacity', maxSlots) <= |m'|
    {
      && LinksKept(m, capacity, m', capacity', maxSlots)
      && (renewed && slotCrc && Slots.Proper(crc) ==> AllGood(crc, m', capacity', maxSlots))
      && if renewed && slotCrc then SlotsRenewed(crc, m, capacity, m', capacity', maxSlots)
         else SlotsMoved(m, capacity, m', capacity', maxSlots)
    }

    /** What the users of the slots, the free list and the queue see. */
    ghost function View(): RegionView
      reads this, mem
      requires Laid()
    {
      RegionView(Seen(mem[..], hashCapacity, maxSlots), Names(slotsBase, maxSlots, freeListHead),
          Names(slotsBase, maxSlots, queueHead), Names(slotsBase, maxSlots, queueTail))
    }

    /** A request for this capacity passes every test of `ef_index_rehash_to`, and the slots have to move. */
    ghost predicate Moves(newCapacity: nat, allowShrink: bool)
      reads this
    {
      && 1 <= newCapacity <= 0xFFFF && PowerOfTwo(newCapacity) && hashCapacity > 0
      && (if allowShrink then newCapacity < hashCapacity && (hashEntryCount != 0 ==>
        hashEntryCount * 4 < newCapacity * 3)
          else newCapacity > hashCapacity)
      && SlotAt(newCapacity, maxSlots) + UNDO_WORDS <= mem.Length
    }

    /** They move, and keys are lost on the way. */
    ghost predicate MovesAndLoses(newCapacity: nat, allowShrink: bool)
      reads this, mem
      requires Laid()
    {
      Moves(newCapacity, allowShrink) && Loses(T(), newCapacity)
    }

    /** What the words of the hash region count as when they are read with another capacity. */
    ghost function Recounted(capacity: nat): nat
      reads this, mem
      requires 2 * capacity <= mem.Length
    {
      Occupied(Table(mem[..], capacity))
    }

    /** The capacity that an insertion grows to. */
    ghost function GrowTarget(): nat
      reads this
    {
      Picked(hashEntryCount + 1, 2 * hashCapacity)
    }

    /** An insertion of this key has to grow the index first. */
    ghost predicate GrowsFor(key: Word)
      reads this
    {
      hashCapacity != 0 && NeedsGrow(hashEntryCount, hashCapacity) && key !in keymap
    }

    /** An insertion gets as far as the table. */
    ghost predicate Reaches(key: Word)
      reads this, mem
      requires Laid()
    {
      hashCapacity > 0 && (GrowsFor(key) ==> Moves(GrowTarget(), false) && !Loses(T(), GrowTarget()))
    }

    /** The capacity of the table that it then meets. */
    ghost function CapacityFor(key: Word): nat
      reads this
    {
      if GrowsFor(key) then GrowTarget() else hashCapacity
    }

    /** The key is there to be overwritten, or there is a bucket for it. */
    ghost predicate HasRoomFor(key: Word)
      reads this
    {
      key in keymap || |keymap| < CapacityFor(key)
    }

    /** The index of a database created anew: `ef_init_hash_region` leaves it empty. */
    constructor (words: nat, capacity: nat, slots: nat, withCrc: bool, checksum: Slots.Checksum)
      requires Layout(words, capacity, slots)
      ensures Valid() && keymap == map[] && AllEmpty(T())
      ensures fresh(mem) && mem.Length == words && hashCapacity == capacity && maxSlots == slots
    {
      mem := new Word[words](_ => 0);
      maxSlots, slotCrc, crc := slots, withCrc, checksum;
      hashCapacity := capacity;
      hashEntryCount := 0;
      slotsBase := SlotsBase(capacity);
      freeListHead := 0;
      queueHead := 0;
      queueTail := 0;
      keymap := map[];
      new;
      AllEmptyFacts(T());
      AllEmptyCount(T());
    }

    /** As many keys as taken buckets. */
    lemma KeysAreBuckets()
      requires Sound()
      ensures |keymap| == Occupied(T()) <= hashCapacity
      ensures HasEmpty(T()) <==> |keymap| < hashCapacity
    {
      IdsCount(T(), slotsBase, maxSlots);
      NoEmptyCount(T());
    }

    /** With an exact counter, the load bound leaves an empty bucket, before and after growing. */
    lemma RoomLeft(key: Word)
      requires Valid() && hashCapacity > 0
      ensures HasEmpty(T())
      ensures Reaches(key) ==> HasRoomFor(key)
    {
      KeysAreBuckets();
      PickedAtLeast(hashEntryCount + 1, 2 * hashCapacity);
    }

    /**
     `ef_index_rehash_to` on the memory backend, with a right or a wrong counter. It keeps every key, or exactly the
     number of keys that `Kept` says. A success makes the counter the number of keys collected, a failure leaves what
     the new layout has counted in the old words: after growth that is never right.
     */
    method RehashTo(newCapacity: nat, allowShrink: bool) returns (err: Err, ghost intact: bool)
      requires Sound()
      modifies this, mem
      ensures Sound() && Relocated(err == Ok)
      ensures View() == old(View())
      ensures intact <==> !old(MovesAndLoses(newCapacity, allowShrink))
      ensures if intact then keymap == old(keymap) else Fewer(keymap, old(keymap))
      ensures intact && old(Exact()) ==> Exact()
      ensures intact && old(Valid()) ==> Valid()
      ensures !old(Moves(newCapacity, allowShrink)) ==> Untouched()
      ensures err == Ok ==> hashCapacity == if allowShrink || newCapacity > old(hashCapacity) then newCapacity
                                            else old(hashCapacity)
      ensures !old(Moves(newCapacity, allowShrink)) ==>
        Refuses(newCapacity, allowShrink, old(hashCapacity), old(hashEntryCount), maxSlots, mem.Length, err)
      ensures old(Moves(newCapacity, allowShrink)) ==>
        && hashCapacity == newCapacity && |keymap| == Kept(old(T()), newCapacity) && (intact ==> err == Ok && Exact())
        && T() == Rehashed(old(T()), old(slotsBase), slotsBase, newCapacity).table
        && err == (if Rehashed(old(T()), old(slotsBase), slotsBase, newCapacity).ok then Ok else IndexFull)
        && hashEntryCount == (if err == Ok then |old(keymap)| else old(Recounted(newCapacity)))
        && (err == Ok && !intact ==> |keymap| == newCapacity < |old(keymap)|)
        && (allowShrink ==> State() == ShrunkTo(old(State()), newCapacity))
      ensures !allowShrink && newCapacity > old(hashCapacity) ==>
        (err == Ok <==> old(Moves(newCapacity, false)) && intact)
      ensures !intact && !allowShrink ==> err == IndexFull && hashEntryCount > |keymap|
    {
      intact := true;
      var moves;
      err, moves := Judge(newCapacity, allowShrink);
      if moves {
        err, intact := MoveTo(newCapacity, allowShrink);
      }
    }

    /** The tests of `ef_index_rehash_to`. */
    method Judge(newCapacity: nat, allowShrink: bool) returns (err: Err, moves: bool)
      requires Sound()
      ensures moves <==> Moves(newCapacity, allowShrink)
      ensures !moves ==>
        Refuses(newCapacity, allowShrink, hashCapacity, hashEntryCount, maxSlots, mem.Length, err)
    {
      if newCapacity < 1 {
        return Err.Grow, false;
      }
      PowerOfTwoTest(newCapacity);
      if And(newCapacity, newCapacity - 1) != 0 {
        return Err.Grow, false;
      }
      if newCapacity > 0xFFFF {
        return Err.Grow, false;
      }
      var oldCapacity := hashCapacity;
      if oldCapacity == 0 {
        return NullArg, false;
      }
      if allowShrink {
        if newCapacity >= oldCapacity {
          return Err.Grow, false;
        }
      } else if newCapacity < oldCapacity {
        return Ok, false;
      }
      if newCapacity == oldCapacity {
        return Ok, false;
      }
      if allowShrink && hashEntryCount != 0 && hashEntryCount * 4 >= newCapacity * 3 {
        return Err.Grow, false;
      }
      if SlotAt(newCapacity, maxSlots) + UNDO_WORDS > mem.Length {
        return FileSize, false;
      }
      return Ok, true;
    }

    /** A request that has passed every test. */
    method MoveTo(newCapacity: nat, allowShrink: bool) returns (err: Err, ghost intact: bool)
      requires Sound() && Moves(newCapacity, allowShrink)
      modifies this, mem
      ensures Sound() && Relocated(err == Ok) && hashCapacity == newCapacity && (err == Ok || err == IndexFull)
      ensures View() == old(View())
      ensures intact <==> !Loses(old(T()), newCapacity)
      ensures if intact then err == Ok && Exact() && keymap == old(keymap) else Fewer(keymap, old(keymap))
      ensures intact && old(Valid()) ==> Valid()
      ensures |keymap| == Kept(old(T()), newCapacity)
      ensures T() == Rehashed(old(T()), old(slotsBase), slotsBase, newCapacity).table
      ensures err == Ok <==> Rehashed(old(T()), old(slotsBase), slotsBase, newCapacity).ok
      ensures hashEntryCount == if err == Ok then |old(keymap)| else old(Recounted(newCapacity))
      ensures err == Ok && !intact ==> |keymap| == newCapacity < |old(keymap)|
      ensures !intact && !allowShrink ==> err == IndexFull && hashEntryCount > |keymap|
      ensures allowShrink ==> State() == ShrunkTo(old(State()), newCapacity)
    {
      RecountFacts(newCapacity);
      KeptMeans(T(), newCapacity);
      err, intact := Apply(newCapacity);
    }

    lemma RecountFacts(capacity: nat)
      requires Sound() && 2 * capacity <= mem.Length
      ensures capacity <= hashCapacity ==> Recounted(capacity) == Occupied(T()[..capacity])
      ensures capacity >= hashCapacity ==> Recounted(capacity) >= |keymap|
      ensures |keymap| == Occupied(T()) <= hashCapacity
    {
      KeysAreBuckets();
      if capacity <= hashCapacity {
        Recount(mem[..], capacity, hashCapacity);
      } else {
        Recount(mem[..], hashCapacity, capacity);
      }
    }

    /** `ef_index_grow_for_insert`. A success makes even a wrong counter right. */
    method GrowForInsert() returns (err: Err, ghost intact: bool)
      requires Sound()
      modifies this, mem
      ensures Sound() && Relocated(err == Ok)
      ensures View() == old(View())
      ensures intact <==> !old(MovesAndLoses(GrowTarget(), false))
      ensures if intact then keymap == old(keymap) else Fewer(keymap, old(keymap))
      ensures err == Ok <==> old(Moves(GrowTarget(), false)) && intact
      ensures err == Ok ==> hashCapacity == old(GrowTarget()) && RoomForOne()
      ensures err == Ok || (intact && old(Exact())) ==> Exact()
      ensures intact && old(Valid()) ==> Valid()
      ensures err != Ok && intact ==> err == GrowthError(old(hashCapacity), old(GrowTarget()))
      ensures !intact ==> err == IndexFull && hashEntryCount > |keymap|
    {
      if hashCapacity == 0 {
        return NullArg, true;
      }
      var target := DueGrowth();
      if target == 0 || target <= hashCapacity {
        return IndexFull, true;
      }
      err, intact := GrowTo(target);
    }

    method DueGrowth() returns (target: nat)
      requires Sound() && hashCapacity > 0
      ensures target == GrowTarget()
      ensures target > 0 ==> target >= GrowStart(2 * hashCapacity) > hashCapacity && PowerOfTwo(target)
    {
      target := PickCapacity(hashEntryCount + 1, hashCapacity * 2);
      PickedAtLeast(hashEntryCount + 1, 2 * hashCapacity);
      if target > 0 {
        PickedIsPower(hashEntryCount + 1, hashCapacity);
      }
    }

    method GrowTo(target: nat) returns (err: Err, ghost intact: bool)
      requires Sound() && hashCapacity > 0 && target >= GrowStart(2 * hashCapacity) && PowerOfTwo(target)
      modifies this, mem
      ensures Sound() && Relocated(err == Ok)
      ensures View() == old(View())
      ensures intact <==> !old(MovesAndLoses(target, false))
      ensures if intact then keymap == old(keymap) else Fewer(keymap, old(keymap))
      ensures err == Ok <==> old(Moves(target, false)) && intact
      ensures err == Ok ==> hashCapacity == target && RoomForOne()
      ensures err == Ok || (intact && old(Exact())) ==> Exact()
      ensures intact && old(Valid()) ==> Valid()
      ensures err != Ok && intact ==> err == if target > 65535 then Err.Grow else FileSize
      ensures !intact ==> err == IndexFull && hashEntryCount > |keymap|
    {
      KeysAreBuckets();
      GrownLoad(|keymap|, hashCapacity, target);
      err, intact := RehashTo(target, false);
    }

    /**
     `ef_index_put` outside a transaction, with a right or a wrong counter. When it reaches the table, `InsertMeans`
     says what becomes of the map. Before that, the slot id may be out of range, or growth not possible; or growth
     gets stuck, and keys are gone.
     */
    method Put(key: Word, slotId: nat) returns (err: Err, ghost intact: bool, ghost lost: Option<Word>)
      requires Sound()
      modifies this, mem
      ensures Sound() && View() == old(View())
      ensures slotId < maxSlots && old(Reaches(key)) ==> hashCapacity == old(CapacityFor(key))
      ensures intact <==> !(slotId < maxSlots && old(GrowsFor(key)) && old(MovesAndLoses(GrowTarget(), false)))
      ensures slotId < maxSlots && old(Reaches(key)) ==>
        intact && InsertMeans(old(keymap), old(CapacityFor(key)), key, slotId, keymap, err, lost)
      ensures !(slotId < maxSlots && old(Reaches(key))) ==>
        err != Ok && lost.None? && (intact ==> keymap == old(keymap))
      ensures slotId < maxSlots && !old(Reaches(key)) && intact ==>
        err == GrowthError(old(hashCapacity), old(GrowTarget()))
      ensures err == SlotId <==> slotId >= maxSlots
      ensures !intact ==> err == IndexFull && Fewer(keymap, old(keymap)) && hashEntryCount > |keymap|
      ensures intact && old(Exact()) ==> Exact()
      ensures intact && old(Valid()) ==> Valid()
      ensures slotId < maxSlots && old(hashCapacity) > 0 && !old(GrowsFor(key)) ==>
        && hashCapacity == old(hashCapacity) && slotsBase == old(slotsBase)
        && Inserted(old(T()), key, SlotToOffset(slotsBase, maxSlots, slotId), T(), err)
        && hashEntryCount - |keymap| == old(hashEntryCount) - |old(keymap)|
    {
      intact, lost := true, None;
      var offset := SlotToOffset(slotsBase, maxSlots, slotId);
      if offset == 0 {
        return SlotId, intact, lost;
      }
      err, intact := MakeRoom(key);
      if err == Ok {
        err, lost := PutNow(key, slotId);
      }
    }

    /** The rest of `ef_index_put`: the slot region may have moved, so the offset is taken again. */
    method PutNow(key: Word, slotId: nat) returns (err: Err, ghost lost: Option<Word>)
      requires Sound() && slotId < maxSlots
      requires hashCapacity == 0 || key in keymap || RoomForOne()
      modifies this`hashEntryCount, this`keymap, mem
      ensures Sound() && View() == old(View())
      ensures err != SlotId
      ensures hashCapacity == 0 ==> err == NullArg && lost.None? && keymap == old(keymap)
      ensures hashCapacity > 0 ==>
        && Inserted(old(T()), key, SlotToOffset(slotsBase, maxSlots, slotId), T(), err)
        && InsertMeans(old(keymap), hashCapacity, key, slotId, keymap, err, lost)
        && hashEntryCount - |keymap| == old(hashEntryCount) - |old(keymap)|
      ensures old(Exact()) ==> Exact()
      ensures old(Valid()) ==> Valid()
    {
      lost := None;
      var offset := SlotToOffset(slotsBase, maxSlots, slotId);
      if hashCapacity == 0 {
        return NullArg, lost;
      }
      err, lost := PutHere(key, slotId, offset);
    }

    /** The growth step of `ef_index_put`: it runs only when a new key would pass the load bound. */
    method MakeRoom(key: Word) returns (err: Err, ghost intact: bool)
      requires Sound()
      modifies this, mem
      ensures Sound() && View() == old(View())
      ensures intact <==> !(old(GrowsFor(key)) && old(MovesAndLoses(GrowTarget(), false)))
      ensures if intact then keymap == old(keymap) else Fewer(keymap, old(keymap))
      ensures err == Ok <==> (old(GrowsFor(key)) ==> old(Moves(GrowTarget(), false)) && intact)
      ensures err == Ok ==> intact && hashCapacity == old(CapacityFor(key))
      ensures err == Ok && hashCapacity > 0 <==> old(Reaches(key))
      ensures err == Ok ==> hashCapacity == 0 || key in keymap || RoomForOne()
      ensures err != Ok && intact ==> old(hashCapacity) > 0 && err == GrowthError(old(hashCapacity), old(GrowTarget()))
      ensures old(hashCapacity) == 0 ==> err == Ok && hashCapacity == 0
      ensures err != SlotId
      ensures intact && old(Exact()) ==> Exact()
      ensures intact && old(Valid()) ==> Valid()
      ensures !old(GrowsFor(key)) ==> Untouched()
      ensures !intact ==> err == IndexFull && hashEntryCount > |keymap|
    {
      err, intact := Ok, true;
      if hashCapacity != 0 && NeedsGrow(hashEntryCount, hashCapacity) {
        var probe, found := Probe(key);
        if probe != Ok {
          err, intact := GrowForInsert();
        }
      }
    }

    method Probe(key: Word) returns (err: Err, found: Entry)
      requires Sound()
      ensures err == if hashCapacity == 0 then NullArg else if key in keymap then Ok else NotFound
      ensures err == Ok ==> key in Contents(T()) && found.slot == Contents(T())[key]
    {
      err, found := FindEntry(mem, hashCapacity, key);
      if hashCapacity != 0 {
        FindCorrect(T(), key);
      }
    }

    /** `ef_index_get`, with no writer about: it answers as the map does, whatever the counter says. */
    method Get(key: Word) returns (err: Err, id: nat)
      requires Sound()
      ensures err == if hashCapacity == 0 then NullArg else if key in keymap then Ok else NotFound
      ensures err == Ok ==> keymap[key] == Some(id) && id < maxSlots
    {
      id := 0;
      var found;
      err, found := Probe(key);
      if err == Ok {
        match OffsetToSlotId(slotsBase, maxSlots, found.slot) {
          case Slot(slotId) => id := slotId;
          case Bad(bad) => err := bad;
        }
      }
    }

    /** The insertion itself, once the load bound lets a new key pass. */
    method PutHere(key: Word, slotId: nat, offset: nat) returns (err: Err, ghost lost: Option<Word>)
      requires Sound() && hashCapacity > 0
      requires slotId < maxSlots && offset == SlotToOffset(slotsBase, maxSlots, slotId)
      requires key in keymap || RoomForOne()
      modifies this`hashEntryCount, this`keymap, mem
      ensures Sound() && SameBeyond(old(mem[..]), mem[..], 2 * hashCapacity)
      ensures View() == old(View())
      ensures Inserted(old(T()), key, SlotToOffset(slotsBase, maxSlots, slotId), T(), err)
      ensures InsertMeans(old(keymap), hashCapacity, key, slotId, keymap, err, lost)
      ensures hashEntryCount - |keymap| == old(hashEntryCount) - |old(keymap)|
      ensures old(Valid()) ==> Valid()
    {
      var added;
      ghost var m;
      err, added, m, lost := InsertEntry(key, slotId, offset);
      CountUp(added, m);
    }

    /** The insertion loop on the mapped words. */
    method InsertEntry(key: Word, slotId: nat, offset: nat)
      returns (err: Err, added: bool, ghost m: map<Word, Option<nat>>, ghost lost: Option<Word>)
      requires Sound() && hashCapacity > 0
      requires slotId < maxSlots && offset == SlotToOffset(slotsBase, maxSlots, slotId)
      modifies mem
      ensures Pending(m)
      ensures View() == old(View())
      ensures SameBeyond(old(mem[..]), mem[..], 2 * hashCapacity)
      ensures Inserted(old(T()), key, offset, T(), err)
      ensures InsertMeans(keymap, hashCapacity, key, slotId, m, err, lost)
      ensures |m| == |keymap| + if added then 1 else 0
      ensures added ==> key !in keymap && err == Ok
    {
      ghost var t, expected, more;
      t, expected, more, m, lost := PutFacts(key, slotId, offset);
      err, added := InsertWords(key, offset);
      assert err == expected && added == more && T() == t;
    }

    /** Its stores, which leave everything behind the table alone. */
    method InsertWords(key: Word, offset: Word) returns (err: Err, added: bool)
      requires Laid() && Linked() && hashCapacity > 0
      modifies mem
      ensures Laid() && Linked() && View() == old(View())
      ensures SameBeyond(old(mem[..]), mem[..], 2 * hashCapacity)
      ensures var r := RobinHoodPut.Put(old(T()), key, offset);
        T() == r.table && err == (if r.Stored? then Ok else IndexFull) && added == (r.Stored? && r.added)
    {
      assert PowerOfTwo(hashCapacity);
      err, added := PutEntry(mem, hashCapacity, key, offset);
      LinksBeyond(old(mem[..]), mem[..], hashCapacity, maxSlots);
      SeenBeyond(old(mem[..]), mem[..], hashCapacity, maxSlots);
    }

    /** The map and the counter after it. */
    method CountUp(added: bool, ghost m: map<Word, Option<nat>>)
      requires Pending(m) && (added ==> hashEntryCount < MAX_CAPACITY)
      modifies this`hashEntryCount, this`keymap
      ensures Sound() && keymap == m && mem[..] == old(mem[..]) && T() == old(T()) && View() == old(View())
      ensures hashEntryCount == old(hashEntryCount) + if added then 1 else 0
    {
      if added {
        hashEntryCount := hashEntryCount + 1;
      }
      keymap := m;
    }

    lemma PutFacts(key: Word, slotId: nat, offset: nat)
      returns (t: seq<Entry>, err: Err, added: bool, ids: map<Word, Option<nat>>, lost: Option<Word>)
      requires Sound() && hashCapacity > 0
      requires slotId < maxSlots && offset == SlotToOffset(slotsBase, maxSlots, slotId)
      ensures 0 < offset < WORD && |t| == hashCapacity && StandsFor(t, slotsBase, maxSlots, ids)
      ensures var r := RobinHoodPut.Put(T(), key, offset);
        t == r.table && err == (if r.Stored? then Ok else IndexFull) && added == (r.Stored? && r.added)
      ensures Inserted(T(), key, offset, t, err)
      ensures InsertMeans(keymap, hashCapacity, key, slotId, ids, err, lost)
      ensures |ids| == |keymap| + (if added then 1 else 0) && (added ==> key !in keymap && err == Ok)
    {
      OffsetRoundTrip(slotsBase, maxSlots, slotId, offset);
      KeysAreBuckets();
      var r := RobinHoodPut.Put(T(), key, offset);
      t, err, added := r.table, if r.Stored? then Ok else IndexFull, r.Stored? && r.added;
      ids := Ids(t, slotsBase, maxSlots);
      lost := PutMeaning(T(), key, offset, slotId, slotsBase, maxSlots);
      MinusCount(keymap, key, Some(slotId), lost);
      if !HasEmpty(T()) && key !in Contents(T()) {
        SuccessIff(T(), key, offset);
      }
    }

    /** `ef_index_shrink`. */
    method Shrink(newCapacity: nat) returns (err: Err, ghost intact: bool)
      requires Sound()
      modifies this, mem
      ensures Sound() && Relocated(err == Ok)
      ensures View() == old(View())
      ensures intact <==> !old(MovesAndLoses(newCapacity, true))
      ensures if intact then keymap == old(keymap) else Fewer(keymap, old(keymap))
      ensures intact && old(Exact()) ==> Exact()
      ensures intact && old(Valid()) ==> Valid()
      ensures old(Moves(newCapacity, true)) ==>
        && |keymap| == Kept(old(T()), newCapacity) && hashCapacity == newCapacity
        && State() == ShrunkTo(old(State()), newCapacity)
      ensures !old(Moves(newCapacity, true)) ==> Untouched()
    {
      if newCapacity == 0 {
        return Err.Grow, true;
      }
      err, intact := RehashTo(newCapacity, true);
    }

    lemma NoBuckets(key: Word)
      requires Sound() && hashCapacity == 0
      ensures keymap == map[] && keymap - {key} == keymap
    {
      AllEmptyFacts(T());
    }

    /** `ef_index_remove_by_hash` with its counter. */
    method RemoveHere(key: Word) returns (err: Err)
      requires Sound()
      modifies this`hashEntryCount, this`keymap, mem
      ensures Sound() && View() == old(View())
      ensures SameBeyond(old(mem[..]), mem[..], 2 * hashCapacity)
      ensures err == if hashCapacity == 0 then NullArg else if key in old(keymap) then Ok else NotFound
      ensures keymap == old(keymap) - {key} && State() == Removed(old(State()), key)
      ensures err != Ok ==> State() == old(State())
      ensures old(Exact()) ==> Exact()
      ensures old(Valid()) ==> Valid()
    {
      if hashCapacity == 0 {
        NoBuckets(key);
        return NullArg;
      }
      ghost var m := keymap - {key};
      err := DropEntry(key);
      CountDown(err, m);
    }

    /** The removal loop on the mapped words. */
    method DropEntry(key: Word) returns (err: Err)
      requires Sound() && hashCapacity > 0
      modifies mem
      ensures Pending(keymap - {key})
      ensures View() == old(View())
      ensures SameBeyond(old(mem[..]), mem[..], 2 * hashCapacity)
      ensures err == if key in keymap then Ok else NotFound
      ensures Removed(old(State()), key) == Counted(T(), CountAfter(err, hashEntryCount))
      ensures err != Ok ==> T() == old(T())
      ensures |keymap - {key}| == |keymap| - if err == Ok then 1 else 0
    {
      ghost var expected, t := DropFacts(key);
      err := RemoveByHash(mem, hashCapacity, key);
      LinksBeyond(old(mem[..]), mem[..], hashCapacity, maxSlots);
      SeenBeyond(old(mem[..]), mem[..], hashCapacity, maxSlots);
      assert err == expected && T() == t;
    }

    lemma DropFacts(key: Word) returns (err: Err, t: seq<Entry>)
      requires Sound() && hashCapacity > 0
      ensures err == if key in keymap then Ok else NotFound
      ensures var r := RobinHoodRemove.Remove(T(), key);
        t == (if r.Some? then r.value else T()) && err == if r.Some? then Ok else NotFound
      ensures |t| == hashCapacity && StandsFor(t, slotsBase, maxSlots, keymap - {key}) && (err != Ok ==> t == T())
      ensures Removed(State(), key) == Counted(t, CountAfter(err, hashEntryCount))
      ensures |keymap - {key}| == |keymap| - if err == Ok then 1 else 0
    {
      var r := RobinHoodRemove.Remove(T(), key);
      t, err := if r.Some? then r.value else T(), if r.Some? then Ok else NotFound;
      RemoveMeaning(T(), key, slotsBase, maxSlots, keymap);
      OneKeyLess(keymap, key);
      RemovedMeans(State(), slotsBase, maxSlots, keymap, key, t);
    }

    /** The map and the counter after it. */
    method CountDown(err: Err, ghost m: map<Word, Option<nat>>)
      requires Pending(m) && |m| == |keymap| - if err == Ok then 1 else 0
      modifies this`hashEntryCount, this`keymap
      ensures Sound() && keymap == m && mem[..] == old(mem[..]) && View() == old(View())
      ensures State() == Counted(old(T()), CountAfter(err, old(hashEntryCount)))
      ensures old(Exact()) ==> Exact()
    {
      if err == Ok && hashEntryCount > 0 {
        hashEntryCount := hashEntryCount - 1;
      }
      keymap := m;
    }

    /** The shrink that follows a removal. Its result is dropped by the callers. */
    method ShrinkIfSparse() returns (ghost intact: bool)
      requires Sound()
      modifies this, mem
      ensures Sound() && State() == Shrunk(old(State())) && View() == old(View())
      ensures intact <==> !ShrinkLoses(old(State()))
      ensures if intact then keymap == old(keymap)
              else Fewer(keymap, old(keymap)) && |keymap| == Kept(old(T()), hashCapacity)
      ensures intact && old(Exact()) ==> Exact()
      ensures intact && old(Valid()) ==> Valid()
    {
      intact := true;
      if ShouldShrink(hashEntryCount, hashCapacity) {
        var target := DueCapacity();
        var ignored;
        ignored, intact := Shrink(target);
      }
    }

    method DueCapacity() returns (target: nat)
      requires Sound() && ShouldShrink(hashEntryCount, hashCapacity)
      ensures ShrinkTarget(hashEntryCount, hashCapacity) == if Moves(target, true) then target else 0
    {
      target := PickShrinkCapacity(hashEntryCount, hashCapacity);
      if target != 0 {
        TargetIs(hashEntryCount, hashCapacity, target);
      } else {
        ghost var c: nat :| LeastFor(hashEntryCount, c) && c >= hashCapacity;
        TargetIs(hashEntryCount, hashCapacity, c);
      }
    }

    /**
     `ef_index_remove`, with a right or a wrong counter. A success removes exactly the key, unless the table without it
     is due to shrink and loses keys on the way. That failure is not reported. Then exactly so many keys are left as
     `Kept` says, and the counter is what `Shrunk` says.
     */
    method Remove(key: Word) returns (err: Err, ghost intact: bool)
      requires Sound()
      modifies this, mem
      ensures Sound() && View() == old(View())
      ensures err == if old(hashCapacity) == 0 then NullArg else if key in old(keymap) then Ok else NotFound
      ensures State() == if err == Ok then Shrunk(Removed(old(State()), key)) else old(State())
      ensures intact <==> !(key in old(keymap) && ShrinkLoses(Removed(old(State()), key)))
      ensures intact ==> keymap == old(keymap) - {key}
      ensures !intact ==> Fewer(keymap, old(keymap) - {key})
                          && |keymap| == Kept(Removed(old(State()), key).table, hashCapacity)
      ensures intact && old(Exact()) ==> Exact()
      ensures intact && old(Valid()) ==> Valid()
    {
      intact := true;
      err := RemoveHere(key);
      if err == Ok {
        intact := ShrinkIfSparse();
      }
    }

    /** `ef_index_remove_by_slot`: it drops the first key that is mapped to the slot, and only that one. */
    method RemoveBySlot(slotId: nat) returns (err: Err, ghost dropped: Option<Word>, ghost intact: bool)
      requires Sound()
      modifies this, mem
      ensures Sound() && err == Ok && View() == old(View())
      ensures dropped.None? ==> Some(slotId) !in old(keymap).Values
      ensures dropped.Some? ==>
        && dropped.value in old(keymap) && old(keymap)[dropped.value] == Some(slotId)
        && FirstNaming(old(T()), SlotToOffset(old(slotsBase), maxSlots, slotId), dropped.value)
      ensures old(hashCapacity) > 0 && slotId < maxSlots ==> State() == Shrunk(WithoutKey(old(State()), dropped))
      ensures intact <==>
        !(old(hashCapacity) > 0 && slotId < maxSlots && ShrinkLoses(WithoutKey(old(State()), dropped)))
      ensures intact ==> keymap == Minus(old(keymap), dropped)
      ensures !intact ==> Fewer(keymap, Minus(old(keymap), dropped))
                          && |keymap| == Kept(WithoutKey(old(State()), dropped).table, hashCapacity)
      ensures intact && old(Exact()) ==> Exact()
      ensures intact && old(Valid()) ==> Valid()
    {
      dropped, intact := None, true;
      if hashCapacity == 0 {
        return Ok, dropped, intact;
      }
      var offset := SlotToOffset(slotsBase, maxSlots, slotId);
      if offset == 0 {
        NoSlotNamed(slotId);
        return Ok, dropped, intact;
      }
      dropped := DropFirst(slotId, offset);
      intact := ShrinkIfSparse();
      err := Ok;
    }

    lemma NoSlotNamed(slotId: nat)
      requires Sound() && slotId >= maxSlots
      ensures Some(slotId) !in keymap.Values
    {
    }

    /** The scan of `ef_index_remove_by_slot`, and the removal of what it finds. */
    method DropFirst(slotId: nat, offset: Word) returns (ghost dropped: Option<Word>)
      requires Sound() && hashCapacity > 0 && slotId < maxSlots && offset == SlotToOffset(slotsBase, maxSlots, slotId)
      modifies this`hashEntryCount, this`keymap, mem
      ensures Sound() && State() == WithoutKey(old(State()), dropped) && View() == old(View())
      ensures dropped.None? ==> Some(slotId) !in old(keymap).Values
      ensures dropped.Some? ==> dropped.value in old(keymap) && old(keymap)[dropped.value] == Some(slotId)
      ensures dropped.Some? ==> FirstNaming(old(T()), offset, dropped.value)
      ensures keymap == Minus(old(keymap), dropped)
      ensures old(Exact()) ==> Exact()
      ensures old(Valid()) ==> Valid()
    {
      dropped := None;
      OffsetRoundTrip(slotsBase, maxSlots, slotId, offset);
      var b := FindSlot(mem, hashCapacity, offset);
      if b < hashCapacity {
        var victim := LoadEntry(mem, b);
        ContentsHas(T(), victim.key, b);
        dropped := Some(victim.key);
        var ignored := RemoveHere(victim.key);
      } else {
        NoKeyNames(T(), offset, slotId, slotsBase, maxSlots);
      }
    }

    /** `ef_index_clear`: it leaves an empty index with an exact counter, whatever was wrong before. */
    method Clear() returns (err: Err)
      requires Sound()
      modifies this, mem
      ensures Valid() && keymap == map[] && View() == old(View())
      ensures hashCapacity == if old(hashCapacity) > 16 then 16 else old(hashCapacity)
      ensures err == if old(hashCapacity) == 0 then NullArg else Ok
    {
      if hashCapacity == 0 {
        KeysAreBuckets();
        AllEmptyFacts(T());
        return NullArg;
      }
      ClearTable(mem, hashCapacity);
      LinksBeyond(old(mem[..]), mem[..], hashCapacity, maxSlots);
      SeenBeyond(old(mem[..]), mem[..], hashCapacity, maxSlots);
      hashEntryCount := 0;
      keymap := map[];
      AllEmptyFacts(T());
      AllEmptyCount(T());
      if hashCapacity > HASH_MIN {
        ShrinkCleared();
      }
      err := Ok;
    }

    /** The shrink that follows. */
    method ShrinkCleared()
      requires Valid() && keymap == map[] && AllEmpty(T()) && hashCapacity > HASH_MIN
      modifies this, mem
      ensures Valid() && keymap == map[] && View() == old(View()) && hashCapacity == HASH_MIN
    {
      var target := PickShrinkCapacity(0, hashCapacity);
      LeastForNone(target, hashCapacity);
      EmptyLoses(T(), target);
      var ignored;
      ghost var intact;
      ignored, intact := Shrink(target);
    }

    lemma RehashFacts(n: nat, r: Rebuilt) returns (ids: map<Word, Option<nat>>)
      requires Sound() && Layout(mem.Length, n, maxSlots) && n > 0
      requires r == Rehashed(T(), slotsBase, SlotsBase(n), n)
      ensures StandsFor(r.table, SlotsBase(n), maxSlots, ids) && |ids| == Kept(T(), n)
      ensures if Loses(T(), n) then Fewer(ids, keymap) else r.ok && ids == keymap
      ensures r.ok && Loses(T(), n) ==> |ids| == n < |keymap|
      ensures Recounted(n) <= n && Occupied(T()) == |keymap| <= hashCapacity
    {
      ids := Ids(r.table, SlotsBase(n), maxSlots);
      KeysAreBuckets();
      RehashMeaning(T(), slotsBase, SlotsBase(n), n, maxSlots);
      OccupiedBound(Table(mem[..], n));
      IdsCount(r.table, SlotsBase(n), maxSlots);
    }

    /** The part of a rehash that follows its checks. */
    method Apply(newCapacity: nat) returns (err: Err, ghost intact: bool)
      requires Sound() && Layout(mem.Length, newCapacity, maxSlots)
      requires newCapacity > 0 && newCapacity != hashCapacity
      modifies this, mem
      ensures Sound() && hashCapacity == newCapacity && Relocated(err == Ok) && View() == old(View())
      ensures intact <==> !Loses(old(T()), newCapacity)
      ensures if intact then keymap == old(keymap) else Fewer(keymap, old(keymap))
      ensures |keymap| == Kept(old(T()), newCapacity)
      ensures var r := Rehashed(old(T()), old(slotsBase), slotsBase, newCapacity);
        T() == r.table && err == if r.ok then Ok else IndexFull
      ensures hashEntryCount == if err == Ok then |old(keymap)| else old(Recounted(newCapacity))
      ensures intact ==> err == Ok
      ensures err == Ok && !intact ==> |keymap| == newCapacity < |old(keymap)|
    {
      ghost var r := Rehashed(T(), slotsBase, SlotsBase(newCapacity), newCapacity);
      ghost var ids := RehashFacts(newCapacity, r);
      intact := !Loses(T(), newCapacity);
      var live, garbage;
      err, garbage, live := MoveRegion(newCapacity);
      Rebind(newCapacity, if err == Ok then live else garbage, ids);
    }

    /**
     The fields of the handle and the superblock. `count` is the recount that comes with the new layout, or, once all
     entries have been reinserted, their number.
     */
    method Rebind(newCapacity: nat, count: nat, ghost m: map<Word, Option<nat>>)
      requires Laid() && Layout(mem.Length, newCapacity, maxSlots) && newCapacity > 0 && count <= MAX_CAPACITY
      requires LinkOk(slotsBase, maxSlots, freeListHead) && LinkOk(slotsBase, maxSlots, queueHead)
      requires LinkOk(slotsBase, maxSlots, queueTail) && LinksOk(mem[..], newCapacity, maxSlots)
      requires StandsFor(Table(mem[..], newCapacity), SlotsBase(newCapacity), maxSlots, m)
      modifies this
      ensures Sound() && hashCapacity == newCapacity && keymap == m && hashEntryCount == count
      ensures mem[..] == old(mem[..]) && T() == Table(old(mem[..]), newCapacity)
      ensures View() == old(View()).(slots := Seen(old(mem[..]), newCapacity, maxSlots))
      ensures Names(slotsBase, maxSlots, freeListHead) == old(Names(slotsBase, maxSlots, freeListHead))
      ensures Names(slotsBase, maxSlots, queueHead) == old(Names(slotsBase, maxSlots, queueHead))
      ensures Names(slotsBase, maxSlots, queueTail) == old(Names(slotsBase, maxSlots, queueTail))
    {
      var oldBase, newBase := slotsBase, SlotsBase(newCapacity);
      LinkFixed(freeListHead, oldBase, newBase, maxSlots);
      LinkFixed(queueHead, oldBase, newBase, maxSlots);
      LinkFixed(queueTail, oldBase, newBase, maxSlots);
      hashCapacity := newCapacity;
      slotsBase := newBase;
      hashEntryCount := count;
      freeListHead := Fixup(freeListHead, oldBase, newBase);
      queueHead := Fixup(queueHead, oldBase, newBase);
      queueTail := Fixup(queueTail, oldBase, newBase);
      keymap := m;
    }

    /** The part of it that works on the mapped words: the move, the table, and the checksums if it succeeds. */
    method MoveRegion(newCapacity: nat) returns (err: Err, garbage: nat, live: nat)
      requires Laid() && Linked() && Layout(mem.Length, newCapacity, maxSlots) && newCapacity > 0
      modifies mem
      ensures var r := Rehashed(old(T()), slotsBase, SlotsBase(newCapacity), newCapacity);
        Table(mem[..], newCapacity) == r.table && err == (if r.ok then Ok else IndexFull)
      ensures live == Occupied(old(T())) && garbage == old(Recounted(newCapacity))
      ensures LinksOk(mem[..], newCapacity, maxSlots)
      ensures Seen(mem[..], newCapacity, maxSlots) == old(View().slots)
      ensures RegionMoved(old(mem[..]), hashCapacity, mem[..], newCapacity, err == Ok)
    {
      err, garbage, live := Relocate(mem, hashCapacity, newCapacity, maxSlots);
      if err == Ok && slotCrc {
        RefreshChecksums(mem, crc, newCapacity, maxSlots);
        if Slots.Proper(crc) {
          RenewedAreGood(crc, old(mem[..]), hashCapacity, mem[..], newCapacity, maxSlots);
        }
      }
      MovedLinks(crc, old(mem[..]), hashCapacity, mem[..], newCapacity, maxSlots);
      SeenMoved(crc, old(mem[..]), hashCapacity, mem[..], newCapacity, maxSlots);
    }
  }
}
