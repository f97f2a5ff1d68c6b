/** The load-factor rules of `src/ef_index.c`: when to grow, and which capacity to grow or shrink to. */
module IndexSizing {
  import opened Base

  const HASH_MIN: nat := 16
  const MAX_CAPACITY: nat := 0xFFFF
  const U32: nat := 0x1_0000_0000

  /** `s` doubled `j` times. */
  function Doubled(s: nat, j: nat): nat {
    if j == 0 then s else 2 * Doubled(s, j - 1)
  }

  ghost predicate Doubling(s: nat, c: nat) {
    exists j: nat :: c == Doubled(s, j)
  }

  lemma {:induction false} DoubledGrows(s: nat, i: nat, j: nat)
    requires i < j
    ensures 2 * Doubled(s, i) <= Doubled(s, j)
  {
    if i + 1 < j {
      DoubledGrows(s, i, j - 1);
    }
  }

  /** Between a doubling and its double there is no other. */
  lemma DoublingsSpread(s: nat, a: nat, b: nat)
    requires Doubling(s, a) && Doubling(s, b) && a < b
    ensures 2 * a <= b
  {
    var i: nat :| a == Doubled(s, i);
    var j: nat :| b == Doubled(s, j);
    if i < j {
      DoubledGrows(s, i, j);
    } else if j < i {
      DoubledGrows(s, j, i);
    }
  }

  lemma DoublingAtLeast(s: nat, c: nat)
    requires Doubling(s, c)
    ensures s <= c
  {
    var j: nat :| c == Doubled(s, j);
    if j > 0 {
      DoubledGrows(s, 0, j);
    }
  }

  lemma DoublingStep(s: nat, c: nat)
    requires Doubling(s, c)
    ensures Doubling(s, 2 * c)
  {
    var j: nat :| c == Doubled(s, j);
    assert 2 * c == Doubled(s, j + 1);
  }

  lemma {:induction false} DoubledOne(j: nat)
    ensures Doubled(1, j) == Pow2(j)
  {
    if j > 0 {
      DoubledOne(j - 1);
    }
  }

  lemma {:induction false} DoubledShift(s: nat, i: nat, j: nat)
    ensures Doubled(Doubled(s, i), j) == Doubled(s, i + j)
  {
    if j > 0 {
      DoubledShift(s, i, j - 1);
    }
  }

  /** The doublings of a power of two are the powers of two from there on. */
  lemma DoublingOfPower(s: nat, c: nat)
    requires PowerOfTwo(s)
    ensures Doubling(s, c) <==> PowerOfTwo(c) && c >= s
  {
    var k: nat :| s == Pow2(k);
    DoubledOne(k);
    if Doubling(s, c) {
      var j: nat :| c == Doubled(s, j);
      DoubledShift(1, k, j);
      DoubledOne(k + j);
      if j > 0 {
        DoubledGrows(s, 0, j);
      }
    }
    if PowerOfTwo(c) && c >= s {
      var m: nat :| c == Pow2(m);
      DoubledOne(m);
      if m < k {
        DoubledGrows(1, m, k);
      } else {
        DoubledShift(1, k, m - k);
      }
    }
  }

  lemma MinIsPower()
    ensures PowerOfTwo(HASH_MIN)
  {
    assert HASH_MIN == Pow2(4);
  }

  /** `ef_index_needs_grow`: one more entry would pass three quarters. */
  predicate NeedsGrow(count: nat, capacity: nat) {
    (count + 1) * 4 > capacity * 3
  }

  /** `ef_index_should_shrink_snap`, on an enabled index. */
  predicate ShouldShrink(entries: nat, capacity: nat) {
    capacity != 0 && (entries == 0 || entries * 8 < capacity)
  }

  predicate Carries(capacity: nat, entries: nat) {
    capacity * 3 / 4 >= entries
  }

  function GrowStart(minCapacity: nat): nat {
    if minCapacity < HASH_MIN then HASH_MIN else minCapacity
  }

  /** The least doubling of the starting capacity that carries the entries, if it is the start or within the maximum. */
  ghost predicate Picks(entries: nat, start: nat, cap: nat) {
    && entries <= MAX_CAPACITY * 3 / 4 && Doubling(start, cap) && Carries(cap, entries)
    && (cap == start || cap <= MAX_CAPACITY)
    && forall c: nat :: Doubling(start, c) && Carries(c, entries) ==> cap <= c
  }

  /** What `ef_index_pick_capacity` gives: that capacity, or zero. */
  ghost function Picked(entries: nat, minCapacity: nat): (cap: nat)
    ensures cap > 0 ==> Picks(entries, GrowStart(minCapacity), cap)
  {
    if c: nat :| Picks(entries, GrowStart(minCapacity), c) then c else 0
  }

  lemma PickedIs(entries: nat, minCapacity: nat, cap: nat)
    requires Picks(entries, GrowStart(minCapacity), cap)
    ensures Picked(entries, minCapacity) == cap >= GrowStart(minCapacity)
  {
    DoublingAtLeast(GrowStart(minCapacity), cap);
    DoublingAtLeast(GrowStart(minCapacity), Picked(entries, minCapacity));
  }

  lemma PickedAtLeast(entries: nat, minCapacity: nat)
    ensures Picked(entries, minCapacity) > 0 ==> Picked(entries, minCapacity) >= GrowStart(minCapacity)
  {
    if Picked(entries, minCapacity) > 0 {
      PickedIs(entries, minCapacity, Picked(entries, minCapacity));
    }
  }

  lemma PickedFirst(entries: nat, minCapacity: nat)
    requires Carries(GrowStart(minCapacity), entries) && entries <= MAX_CAPACITY * 3 / 4
    ensures Picked(entries, minCapacity) == GrowStart(minCapacity)
  {
    var start := GrowStart(minCapacity);
    assert start == Doubled(start, 0);
    forall c: nat | Doubling(start, c) ensures start <= c {
      DoublingAtLeast(start, c);
    }
    PickedIs(entries, minCapacity, start);
  }

  /** `ef_index_pick_capacity`: the least doubling of the starting capacity that carries the entries. */
  method PickCapacity(entries: nat, minCapacity: nat) returns (cap: nat)
    requires entries < U32 && minCapacity < U32
    ensures cap != 0 ==>
      && Doubling(GrowStart(minCapacity), cap) && Carries(cap, entries)
      && forall c: nat :: Doubling(GrowStart(minCapacity), c) && Carries(c, entries) ==> cap <= c
    ensures cap == 0 ==>
      forall c: nat :: Doubling(GrowStart(minCapacity), c) && c <= MAX_CAPACITY ==> !Carries(c, entries)
    ensures cap == Picked(entries, minCapacity)
  {
    ghost var start := GrowStart(minCapacity);
    cap := minCapacity;
    if cap < HASH_MIN {
      cap := HASH_MIN;
    }
    if entries > MAX_CAPACITY * 3 / 4 {
      return 0;
    }
    assert cap == Doubled(start, 0);
    forall c: nat | Doubling(start, c)
      ensures start <= c
    {
      DoublingAtLeast(start, c);
    }
    while cap * 3 / 4 < entries
      invariant cap > 0 && Doubling(start, cap) && (cap == start || cap <= MAX_CAPACITY)
      invariant forall c: nat :: Doubling(start, c) && c < cap ==> !Carries(c, entries)
      decreases MAX_CAPACITY - cap
    {
      forall c: nat | Doubling(start, c) && c < 2 * cap
        ensures !Carries(c, entries)
      {
        if c > cap {
          DoublingsSpread(start, cap, c);
        }
      }
      if cap > MAX_CAPACITY / 2 {
        forall c: nat | Doubling(start, c) && c <= MAX_CAPACITY
          ensures !Carries(c, entries)
        {
        }
        assert forall c: nat :: !Picks(entries, start, c);
        return 0;
      }
      DoublingStep(start, cap);
      cap := 2 * cap;
    }
    PickedIs(entries, minCapacity, cap);
  }

  /** The least power of two from 16 up that holds the entries at three quarters. */
  ghost predicate LeastFor(entries: nat, cap: nat) {
    && PowerOfTwo(cap) && cap >= HASH_MIN && 4 * entries <= 3 * cap
    && forall c: nat :: PowerOfTwo(c) && c >= HASH_MIN && 4 * entries <= 3 * c ==> cap <= c
  }

  method RoundUp(required: nat) returns (cap: nat)
    requires required < U32 / 2
    ensures PowerOfTwo(cap) && cap >= HASH_MIN && cap >= required
    ensures forall c: nat :: PowerOfTwo(c) && c >= HASH_MIN && c >= required ==> cap <= c
  {
    MinIsPower();
    cap := HASH_MIN;
    while cap < required
      invariant PowerOfTwo(cap) && cap >= HASH_MIN
      invariant forall c: nat :: PowerOfTwo(c) && c >= HASH_MIN && c >= required ==> cap <= c
      decreases required - cap
    {
      DoublingOfPower(HASH_MIN, cap);
      DoublingStep(HASH_MIN, cap);
      DoublingOfPower(HASH_MIN, 2 * cap);
      forall c: nat | PowerOfTwo(c) && c >= HASH_MIN && c >= required
        ensures 2 * cap <= c
      {
        DoublingOfPower(HASH_MIN, c);
        DoublingsSpread(HASH_MIN, cap, c);
      }
      cap := 2 * cap;
    }
  }

  /** The capacity that the entries need at three quarters, rounded up, in 32-bit arithmetic. */
  method RequiredCapacity(entries: nat) returns (required: nat)
    requires entries < U32
    ensures required < U32 / 2
    ensures entries < U32 / 4 ==> forall c: nat :: c >= required <==> 3 * c >= 4 * entries
  {
    var product := (entries * 4) % U32;
    required := product / 3;
    if product > (required * 3) % U32 {
      required := required + 1;
    }
  }

  lemma LeastIsUnique(entries: nat, a: nat, b: nat)
    requires LeastFor(entries, a) && LeastFor(entries, b)
    ensures a == b
  {
  }

  /**
   `ef_index_pick_shrink_capacity`, with its 32-bit products. A result other than zero is the least power of two
   from 16 up that keeps the load factor, and it is smaller than the current capacity; zero is returned exactly
   when the capacity is not valid, the table is not sparse, or nothing smaller would do.
   */
  method PickShrinkCapacity(entries: nat, current: nat) returns (cap: nat)
    requires entries < U32 && current < U32
    ensures cap == 0 <==>
      || current == 0 || !PowerOfTwo(current) || current > 0xFFFF
      || !ShouldShrink(entries, current)
      || exists c: nat :: LeastFor(entries, c) && c >= current
    ensures cap != 0 ==> LeastFor(entries, cap) && cap < current
  {
    if current == 0 {
      return 0;
    }
    PowerOfTwoTest(current);
    if And(current, current - 1) != 0 {
      return 0;
    }
    if current > 0xFFFF {
      return 0;
    }
    if entries > 0 {
      var required := RequiredCapacity(entries);
      cap := RoundUp(required);
    } else {
      MinIsPower();
      cap := HASH_MIN;
    }
    if ShouldShrink(entries, current) {
      assert LeastFor(entries, cap);
      forall c: nat | LeastFor(entries, c)
        ensures c == cap
      {
        LeastIsUnique(entries, c, cap);
      }
    }
    if cap >= current {
      return 0;
    }
    if entries != 0 && entries * 8 >= current {
      return 0;
    }
    // The closing loop of the source halves while `cap * 8 < entries`; it returns at its first test.
    assert cap * 8 >= entries;
  }
}
