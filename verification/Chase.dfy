/** Following links between used slots (`ef_chase_n` in `src/endfields.c`), with its cache of the first 64 offsets. */
module Chase {
  import opened Base
  import opened Rebuild
  import opened Slots
  import opened Heaps

  const CHASE_MAX_DEPTH: nat := 1024
  const VISIT_CACHE: nat := 64

  /** How a path of links goes on after its last slot. */
  datatype End =
    | Ends
    | Loops(mu: nat)
    | Breaks

  /**
   From `start` the links run through the distinct slots of `p`, all used but perhaps the last; there the chain ends,
   or loops back to number `mu` of `p`, or meets a slot that is not used.
   */
  ghost predicate Path(slots: seq<Slot>, start: nat, p: seq<nat>, e: End) {
    && p != [] && start == Off(p[0]) && Distinct(p)
    && (forall i: nat :: i < |p| ==> p[i] < |slots|)
    && (forall i: nat :: i < |p| - 1 ==> Joined(slots, p, i))
    && var last := slots[p[|p| - 1]];
       match e
       case Ends => last.status == USED && last.next == 0
       case Loops(mu) => last.status == USED && mu < |p| && last.next == Off(p[mu])
       case Breaks => last.status != USED
  }

  ghost predicate Joined(slots: seq<Slot>, p: seq<nat>, i: nat)
    requires i + 1 < |p| && p[i] < |slots|
  {
    slots[p[i]].status == USED && slots[p[i]].next == Off(p[i + 1])
  }

  /** Which slot of a path of `len` slots is met after `i` links, when it loops back to number `mu`. */
  ghost function Around(len: nat, mu: nat, i: nat): (r: nat)
    requires mu < len
    ensures r < len && (i < len ==> r == i) && (mu <= i ==> mu <= r)
  {
    if i < len then i else mu + (i - mu) % (len - mu)
  }

  lemma AroundStep(len: nat, mu: nat, i: nat)
    requires mu < len
    ensures Around(len, mu, i + 1) == if Around(len, mu, i) + 1 < len then Around(len, mu, i) + 1 else mu
  {
    if i + 1 >= len {
      NextRemainder(i - mu, len - mu);
      if i + 1 == len {
        QuotientIsUnique(i + 1 - mu, len - mu, 1, 0);
      }
    }
  }

  lemma NextRemainder(k: nat, m: nat)
    requires m > 0
    ensures (k + 1) % m == if k % m == m - 1 then 0 else k % m + 1
  {
    var q, r := k / m, k % m;
    assert k == m * q + r;
    if r == m - 1 {
      assert k + 1 == m * (q + 1) + 0;
      QuotientIsUnique(k + 1, m, q + 1, 0);
    } else {
      QuotientIsUnique(k + 1, m, q, r + 1);
    }
  }

  /** The slot after `i` links. */
  ghost function Visited(p: seq<nat>, e: End, i: nat): nat
    requires p != [] && (i < |p| || (e.Loops? && e.mu < |p|))
  {
    if i < |p| then p[i] else p[Around(|p|, e.mu, i)]
  }

  /** The links of used slots name slots, as `ef_set_next_offset` sees to. */
  ghost predicate InRange(slots: seq<Slot>) {
    forall x: nat :: x < |slots| && slots[x].status == USED && slots[x].next != 0 ==> At(|slots|, slots[x].next).Slot?
  }

  // ---------- Every chain is such a path ----------

  /** Every slot starts a path of one of the three kinds. */
  lemma PathFrom(slots: seq<Slot>, x: nat) returns (p: seq<nat>, e: End)
    requires InRange(slots) && x < |slots|
    ensures Path(slots, Off(x), p, e) && |p| <= |slots|
  {
    p, e := Extend(slots, [x]);
  }

  lemma {:induction false} Extend(slots: seq<Slot>, q: seq<nat>) returns (p: seq<nat>, e: End)
    requires InRange(slots) && q != [] && Distinct(q) && |q| <= |slots|
    requires forall i: nat :: i < |q| ==> q[i] < |slots|
    requires forall i: nat :: i < |q| - 1 ==> Joined(slots, q, i)
    ensures Path(slots, Off(q[0]), p, e) && |p| <= |slots|
    decreases |slots| - |q|
  {
    var last := slots[q[|q| - 1]];
    p := q;
    if last.status != USED {
      e := Breaks;
    } else if last.next == 0 {
      e := Ends;
    } else {
      NamesOff(|slots|, last.next);
      var y := At(|slots|, last.next).id;
      if y in q {
        var mu: nat :| mu < |q| && q[mu] == y;
        e := Loops(mu);
      } else {
        var r := q + [y];
        OneMore(q, y, |slots|);
        forall i: nat | i < |r| - 1 ensures Joined(slots, r, i) {
          assert i < |q| - 1 ==> Joined(slots, q, i);
        }
        p, e := Extend(slots, r);
      }
    }
  }

  lemma OneMore(q: seq<nat>, y: nat, n: nat)
    requires Distinct(q) && y !in q && y < n && forall i: nat :: i < |q| ==> q[i] < n
    ensures Distinct(q + [y]) && |q| + 1 <= n
  {
    var r := q + [y];
    forall i: nat, j: nat | i < j < |r| ensures r[i] != r[j] {
      assert q[i] in q;
    }
    Pigeons(r, n);
  }

  // ---------- The walk ----------

  /** `ef_chase_offset_seen`. */
  method OffsetSeen(offset: Word, seen: array<Word>, count: nat) returns (found: bool)
    requires count <= seen.Length
    ensures found <==> offset in seen[..count]
  {
    var i := 0;
    while i < count
      invariant 0 <= i <= count && offset !in seen[..i]
    {
      if seen[i] == offset {
        return true;
      }
      i := i + 1;
    }
    return false;
  }

  /** The first visited offsets, as many as the cache holds. */
  ghost predicate Cached(p: seq<nat>, seen: seq<Word>, i: nat) {
    && |seen| == (if i < VISIT_CACHE then i else VISIT_CACHE)
    && forall j: nat :: j < |seen| && j < |p| ==> seen[j] == Off(p[j])
  }

  function Least(a: nat, b: nat): nat {
    if a < b then a else b
  }

  /** The start offset is refused: outside the slot region and the undo log behind it, or between two slots. */
  predicate Refused(n: nat, start: nat) {
    start < 64 || start >= 131168 + 64 * n || (start - 64) % 64 != 0
  }

  /**
   `ef_chase_n` on the path `p` from `start`. A chain that ends gives slot number `hops`, or its last. A cycle is
   reported if and only if it is entered within the first 64 slots and closes before the limit of hops; beyond the
   greatest depth the walk gives up; a slot that is not used is reported where the walk reads it. A start that names
   no slot is refused, unless it is an aligned offset in the undo log, which would be read as a slot.
   */
  method ChaseN(slots: seq<Slot>, start: Word, hops: nat, ghost p: seq<nat>, ghost e: End)
    returns (err: Err, slot: nat, done: nat)
    requires |slots| <= MOST_SLOTS
    requires At(|slots|, start).Slot? ==> Path(slots, start, p, e)
    requires At(|slots|, start).Bad? ==> hops == 0 || Refused(|slots|, start)
    ensures At(|slots|, start).Bad? ==> err == Offset
    ensures At(|slots|, start).Slot? ==>
      var limit := Least(hops, 1024);
      if hops == 0 then err == Ok && slot == p[0] && done == 0
      else if e.Ends? && |p| <= limit then err == Ok && slot == p[|p| - 1] && done == |p|
      else if e.Breaks? && |p| <= limit then err == SlotFree
      else if e.Loops? && e.mu < 64 && |p| < limit then err == ChaseCycle
      else if hops > 1024 then err == ChaseDepth
      else err == Ok && slot == Visited(p, e, hops) && done == hops
  {
    slot, done := 0, 0;
    if hops == 0 {
      match At(|slots|, start) {
        case Slot(id) => return Ok, id, 0;
        case Bad(_) => return Offset, slot, done;
      }
    }
    if start < SB_SIZE || start >= ExpectedSize(|slots|) {
      return Offset, slot, done;
    }
    if (start - SB_SIZE) % SLOT_SIZE != 0 {
      return Offset, slot, done;
    }
    OffNames(|slots|, p[0]);
    var limit := if hops > CHASE_MAX_DEPTH then CHASE_MAX_DEPTH else hops;
    var offset := start;
    var seen := new Word[VISIT_CACHE];
    var seenCount := 0;
    var i: nat := 0;
    while i < limit
      invariant i <= limit && seenCount == Least(i, VISIT_CACHE)
      invariant e.Loops? || i < |p|
      invariant e.Loops? && e.mu < VISIT_CACHE ==> i <= |p|
      invariant offset == Off(Visited(p, e, i)) && Cached(p, seen[..seenCount], i)
    {
      VisitedInRange(slots, start, p, e, i);
      CacheTells(slots, start, p, e, seen[..seenCount], i);
      var found := OffsetSeen(offset, seen, seenCount);
      if found {
        return ChaseCycle, slot, done;
      }
      if seenCount < VISIT_CACHE {
        seen[seenCount] := offset;
        seenCount := seenCount + 1;
      }
      slot := At(|slots|, offset).id;
      if slots[slot].status != USED {
        return SlotFree, slot, done;
      }
      if slots[slot].next == 0 {
        return Ok, slot, i + 1;
      }
      offset := slots[slot].next;
      i := i + 1;
    }
    if hops > CHASE_MAX_DEPTH {
      return ChaseDepth, slot, done;
    }
    VisitedInRange(slots, start, p, e, i);
    return Ok, At(|slots|, offset).id, limit;
  }

  /** One more link on the path. */
  lemma VisitedInRange(slots: seq<Slot>, start: nat, p: seq<nat>, e: End, i: nat)
    requires Path(slots, start, p, e) && (i < |p| || e.Loops?)
    ensures var x := Visited(p, e, i);
      && x < |slots| && At(|slots|, Off(x)) == SlotRef.Slot(x)
      && (slots[x].status != USED <==> e.Breaks? && i == |p| - 1)
      && (slots[x].status == USED && slots[x].next == 0 <==> e.Ends? && i == |p| - 1)
      && (slots[x].status == USED && slots[x].next != 0 ==>
            (i + 1 < |p| || e.Loops?) && slots[x].next == Off(Visited(p, e, i + 1)))
  {
    var x := Visited(p, e, i);
    OffNames(|slots|, x);
    if e.Loops? {
      var at := Around(|p|, e.mu, i);
      assert x == p[at];
      AroundStep(|p|, e.mu, i);
      assert Visited(p, e, i + 1) == p[Around(|p|, e.mu, i + 1)];
      if at < |p| - 1 {
        assert Joined(slots, p, at);
      }
    } else if i < |p| - 1 {
      assert Joined(slots, p, i);
    }
  }

  /** The cache holds the offset if and only if the walk has come round to a slot among the first 64. */
  lemma CacheTells(slots: seq<Slot>, start: nat, p: seq<nat>, e: End, seen: seq<Word>, i: nat)
    requires Path(slots, start, p, e) && Cached(p, seen, i) && (i < |p| || e.Loops?)
    requires e.Loops? && e.mu < VISIT_CACHE ==> i <= |p|
    ensures Off(Visited(p, e, i)) in seen <==> e.Loops? && e.mu < VISIT_CACHE && i == |p|
  {
    var at := if i < |p| then i else Around(|p|, e.mu, i);
    assert Visited(p, e, i) == p[at];
    if i == |p| && e.mu < VISIT_CACHE {
      AroundStep(|p|, e.mu, |p| - 1);
      assert seen[e.mu] == Off(p[e.mu]);
    } else {
      forall j: nat | j < |seen| ensures seen[j] != Off(p[at]) {
        assert j < at && p[j] != p[at];
      }
    }
  }
}
