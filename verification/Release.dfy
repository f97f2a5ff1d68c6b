/** `ef_blob_release_chain` on any heap at all: links may dangle, cross into other chains or run in a circle. */
module Release {
  import opened Base
  import opened Rebuild
  import opened Slots
  import opened Heaps
  import opened Contents

  function OverflowCount(slots: seq<Slot>): nat {
    if slots == [] then 0
    else OverflowCount(slots[..|slots| - 1]) + if slots[|slots| - 1].status == OVERFLOW then 1 else 0
  }

  lemma {:induction false} CountUpdated(slots: seq<Slot>, x: nat, s: Slot)
    requires x < |slots|
    ensures OverflowCount(slots[x := s])
         == OverflowCount(slots) - (if slots[x].status == OVERFLOW then 1 else 0)
            + if s.status == OVERFLOW then 1 else 0
  {
    var n := |slots| - 1;
    if x < n {
      assert slots[x := s][..n] == slots[..n][x := s];
      CountUpdated(slots[..n], x, s);
    } else {
      assert slots[x := s][..n] == slots[..n];
    }
  }

  lemma GivenCount(h: Heap, x: nat)
    requires x < |h.slots| <= MOST_SLOTS && h.slots[x].status == OVERFLOW
    ensures OverflowCount(Given(h, x).slots) == OverflowCount(h.slots) - 1
  {
    CountUpdated(h.slots, x, Slot.Slot(FREE, 0, Zeros(PAYLOAD_SIZE), h.freeHead));
  }

  /**
   The loop from offset `off` on. It ends on every heap, even a cyclic one, because every turn leaves one overflow
   slot less.
   */
  function Released(h: Heap, off: Word): (Heap, Err)
    requires |h.slots| <= MOST_SLOTS
    decreases OverflowCount(h.slots)
  {
    if off == 0 then (h, Ok)
    else
      match At(|h.slots|, off)
      case Bad(err) => (h, err)
      case Slot(x) =>
        NamesOff(|h.slots|, off);
        if h.slots[x].status != OVERFLOW then (h, NotFound)
        else
          GivenCount(h, x);
          Released(Given(h, x), h.slots[x].next)
  }

  /** On any heap: the free count rises by the number of overflow slots that went. */
  lemma {:induction false} ReleaseCounts(h: Heap, off: Word)
    requires |h.slots| <= MOST_SLOTS && h.freeCount < COUNT_SPAN
    ensures var h' := Released(h, off).0;
      && OverflowCount(h'.slots) <= OverflowCount(h.slots)
      && h'.freeCount == (h.freeCount + (OverflowCount(h.slots) - OverflowCount(h'.slots))) % COUNT_SPAN
    decreases OverflowCount(h.slots)
  {
    if off != 0 && At(|h.slots|, off).Slot? {
      NamesOff(|h.slots|, off);
      var x := At(|h.slots|, off).id;
      if h.slots[x].status == OVERFLOW {
        GivenCount(h, x);
        var g := Given(h, x);
        var h' := Released(g, h.slots[x].next).0;
        assert Released(h, off).0 == h';
        ReleaseCounts(g, h.slots[x].next);
        CountOnTwice(h.freeCount, OverflowCount(g.slots) - OverflowCount(h'.slots));
      }
    }
  }

  /** A slot that release has changed was an overflow slot, and is free and empty. */
  ghost predicate OnlyFreed(slots: seq<Slot>, slots': seq<Slot>) {
    && |slots'| == |slots|
    && forall y: nat :: y < |slots| ==>
         || slots'[y] == slots[y]
         || (slots[y].status == OVERFLOW && slots'[y].status == FREE && slots'[y].payload == Zeros(PAYLOAD_SIZE))
  }

  /** On any heap: no slot but overflow slots changes, and those that do become free and empty. */
  lemma {:induction false} ReleaseTouches(h: Heap, off: Word)
    requires |h.slots| <= MOST_SLOTS
    ensures OnlyFreed(h.slots, Released(h, off).0.slots)
    decreases OverflowCount(h.slots)
  {
    if off != 0 && At(|h.slots|, off).Slot? {
      NamesOff(|h.slots|, off);
      var x := At(|h.slots|, off).id;
      if h.slots[x].status == OVERFLOW {
        GivenCount(h, x);
        ReleaseTouches(Given(h, x), h.slots[x].next);
      }
    }
  }

  lemma CountOnTwice(a: nat, b: nat)
    ensures ((a + 1) % COUNT_SPAN + b) % COUNT_SPAN == (a + 1 + b) % COUNT_SPAN
  {
  }

  /** A slot that links to itself is released once, and then reported as not part of a chain. */
  lemma CircleEnds(h: Heap, x: nat)
    requires x < |h.slots| <= MOST_SLOTS && h.slots[x].status == OVERFLOW && h.slots[x].next == Off(x)
    ensures Released(h, Off(x)) == (Given(h, x), NotFound)
  {
    OffNames(|h.slots|, x);
    GivenCount(h, x);
    assert Released(Given(h, x), Off(x)) == (Given(h, x), NotFound);
  }

  // ---------- The outcome on any heap ----------

  /** From offset `off` the links run through the overflow slots of `l`, each once, to offset `e`. */
  ghost predicate Walk(slots: seq<Slot>, off: nat, l: seq<nat>, e: nat) {
    && Distinct(l) && off == (if l == [] then e else 64 + 64 * l[0])
    && forall i: nat :: i < |l| ==>
         && l[i] < |slots| && slots[l[i]].status == 2
         && slots[l[i]].next == if i + 1 < |l| then 64 + 64 * l[i + 1] else e
  }

  /** Offset `e` ends the list, names no slot, or names one that is no overflow slot or has been met before. */
  ghost predicate Stops(slots: seq<Slot>, l: seq<nat>, e: nat) {
    forall y: nat :: y < |slots| && e == 64 + 64 * y ==> y in l || slots[y].status != 2
  }

  /** Every offset starts a walk that stops. */
  lemma {:induction false} WalkFrom(h: Heap, off: Word) returns (l: seq<nat>, e: Word)
    requires |h.slots| <= MOST_SLOTS
    ensures Walk(h.slots, off, l, e) && Stops(h.slots, l, e)
    decreases OverflowCount(h.slots)
  {
    AtOutcome(|h.slots|, off);
    var at := At(|h.slots|, off);
    if at.Slot? && h.slots[at.id].status == OVERFLOW {
      var x, g := at.id, Given(h, at.id);
      GivenCount(h, x);
      var m, d := WalkFrom(g, h.slots[x].next);
      assert g.slots[x].status == FREE;
      assert x !in m;
      l, e := [x] + m, d;
    } else {
      l, e := [], off;
    }
  }

  ghost predicate EmptySlot(s: Slot, link: nat) {
    s.status == 0 && s.crc == 0 && s.payload == Zeros(48) && s.next == link
  }

  /** The slots of `l` are free and empty, each linked to the one before it and the first to `head`. */
  ghost predicate PutBack(slots: seq<Slot>, slots': seq<Slot>, l: seq<nat>, head: nat) {
    && |slots'| == |slots|
    && (forall y: nat :: y < |slots| && y !in l ==> slots'[y] == slots[y])
    && forall i: nat :: i < |l| && l[i] < |slots| ==>
         EmptySlot(slots'[l[i]], if i == 0 then head else 64 + 64 * l[i - 1])
  }

  lemma PutBackOne(slots: seq<Slot>, x: nat, s: Slot, slots': seq<Slot>, m: seq<nat>, head: nat)
    requires x < |slots| && x !in m && EmptySlot(s, head)
    requires PutBack(slots[x := s], slots', m, 64 + 64 * x)
    ensures PutBack(slots, slots', [x] + m, head)
  {
    var l := [x] + m;
    forall i: nat | i < |l| && l[i] < |slots|
      ensures EmptySlot(slots'[l[i]], if i == 0 then head else 64 + 64 * l[i - 1])
    {
      if i == 0 {
        assert slots'[x] == slots[x := s][x];
      } else {
        var j: nat := i - 1;
        assert l[i] == m[j] && l[j] == if j == 0 then x else m[j - 1];
        assert EmptySlot(slots'[m[j]], if j == 0 then 64 + 64 * x else 64 + 64 * m[j - 1]);
      }
    }
    forall y: nat | y < |slots| && y !in l ensures slots'[y] == slots[y] {
      assert y !in m && y != x;
    }
  }

  lemma WalkOn(h: Heap, off: Word, l: seq<nat>, e: Word)
    requires |h.slots| <= MOST_SLOTS && Walk(h.slots, off, l, e) && Stops(h.slots, l, e) && l != []
    ensures var x := l[0];
      && x < |h.slots| && h.slots[x].status == 2 && off == 64 + 64 * x && l == [x] + l[1..] && x !in l[1..]
      && Walk(Given(h, x).slots, h.slots[x].next, l[1..], e) && Stops(Given(h, x).slots, l[1..], e)
  {
    var x, m := l[0], l[1..];
    var g := Given(h, x);
    forall i: nat | i < |m|
      ensures m[i] != x && m[i] < |g.slots| && g.slots[m[i]].status == 2
      ensures g.slots[m[i]].next == if i + 1 < |m| then 64 + 64 * m[i + 1] else e
    {
      assert m[i] == l[i + 1];
    }
    assert Distinct(m) && (m != [] ==> m[0] == l[1]);
    assert l[0] == x && h.slots[x].next == if 0 + 1 < |l| then 64 + 64 * l[0 + 1] else e;
    forall y: nat | y < |g.slots| && e == 64 + 64 * y ensures y in m || g.slots[y].status != 2 {
      assert y in l ==> y == x || y in m;
    }
  }

  lemma ReleasedOn(h: Heap, x: nat)
    requires x < |h.slots| <= MOST_SLOTS && h.slots[x].status == OVERFLOW
    ensures Released(h, Off(x)) == Released(Given(h, x), h.slots[x].next)
  {
    OffNames(|h.slots|, x);
    GivenCount(h, x);
  }

  /** How a release ends at offset `e`. */
  ghost function EndOf(n: nat, e: nat): Err {
    if e == 0 then Ok else if OffGrid(e) then Offset else if NamesSlot(n, e) then NotFound else SlotId
  }

  lemma ReleasedStops(h: Heap, e: Word)
    requires |h.slots| <= MOST_SLOTS && Stops(h.slots, [], e)
    ensures Released(h, e) == (h, EndOf(|h.slots|, e))
  {
    AtOutcome(|h.slots|, e);
  }

  ghost predicate FreedAlong(h: Heap, h': Heap, l: seq<nat>) {
    && PutBack(h.slots, h'.slots, l, h.freeHead)
    && h'.freeHead == (if l == [] then h.freeHead else 64 + 64 * l[|l| - 1])
    && h'.freeCount == (h.freeCount + |l|) % 0x1_0000_0000
    && h'.queueHead == h.queueHead && h'.queueTail == h.queueTail
  }

  lemma FreedOneMore(h: Heap, x: nat, h': Heap, m: seq<nat>)
    requires x < |h.slots| <= MOST_SLOTS && x !in m && h.freeCount < COUNT_SPAN
    requires FreedAlong(Given(h, x), h', m)
    ensures FreedAlong(h, h', [x] + m)
  {
    PutBackOne(h.slots, x, Given(h, x).slots[x], h'.slots, m, h.freeHead);
    CountOnTwice(h.freeCount, |m|);
  }

  /**
   On any heap: exactly the slots on the walk are freed, whatever ends it. Release succeeds if and only if the walk
   ends at zero; a slot that is no overflow slot, or that it has freed itself, is reported as NOT_FOUND, and an offset
   that names no slot in the two usual ways.
   */
  lemma {:induction false} ReleaseExact(h: Heap, off: Word, l: seq<nat>, e: Word)
    requires |h.slots| <= MOST_SLOTS && h.freeCount < COUNT_SPAN
    requires Walk(h.slots, off, l, e) && Stops(h.slots, l, e)
    ensures FreedAlong(h, Released(h, off).0, l) && Released(h, off).1 == EndOf(|h.slots|, e)
    decreases |l|
  {
    if l == [] {
      ReleasedStops(h, e);
    } else {
      var x, m := l[0], l[1..];
      WalkOn(h, off, l, e);
      ReleasedOn(h, x);
      var r := Released(Given(h, x), h.slots[x].next);
      assert off == Off(x) && Released(h, off) == r;
      ReleaseExact(Given(h, x), h.slots[x].next, m, e);
      FreedOneMore(h, x, r.0, m);
    }
  }

  function Reverse(l: seq<nat>): (r: seq<nat>)
    ensures |r| == |l|
  {
    if l == [] then [] else Reverse(l[1..]) + [l[0]]
  }

  /** The shape after a loose chain has gone to the free list. */
  ghost function ReleasedShape(sh: Shape): Shape {
    sh.(place := seq(|sh.place|,
        i requires 0 <= i < |sh.place| => if sh.place[i] == Loose then InFree else sh.place[i]),
        free := Reverse(sh.loose) + sh.free, loose := [])
  }

  lemma NothingLoose(c: Checksum, h: Heap, sh: Shape, off: nat)
    requires FitsLoose(c, h, sh, off) && sh.loose == []
    ensures off == 0 && ReleasedShape(sh) == sh
  {
    forall y: nat | y < |sh.place| ensures sh.place[y] != Loose {
      assert OnePlace(sh.place, y, Loose) ==> y in sh.loose;
    }
    assert ReleasedShape(sh).place == sh.place;
  }

  ghost function OneReleased(sh: Shape): Shape
    requires sh.loose != [] && sh.loose[0] < |sh.place|
  {
    sh.(place := sh.place[sh.loose[0] := InFree], free := [sh.loose[0]] + sh.free, loose := sh.loose[1..])
  }

  lemma ReleasedOnce(sh: Shape)
    requires sh.loose != [] && sh.loose[0] < |sh.place| && sh.place[sh.loose[0]] == Loose
    ensures ReleasedShape(OneReleased(sh)) == ReleasedShape(sh)
  {
    var x := sh.loose[0];
    assert ReleasedShape(OneReleased(sh)).place == ReleasedShape(sh).place;
    assert Reverse(sh.loose) + sh.free == Reverse(sh.loose[1..]) + ([x] + sh.free);
  }

  /** The slots that are not loose stay as they are. */
  ghost predicate FirmKept(sh: Shape, slots: seq<Slot>, slots': seq<Slot>) {
    && |slots'| == |slots| <= |sh.place|
    && forall y: nat :: y < |slots| && sh.place[y] != Loose ==> slots'[y] == slots[y]
  }

  /** On a sound heap the whole chain goes to the free list, its last slot first. */
  lemma {:induction false} ReleaseFits(c: Checksum, h: Heap, sh: Shape, off: Word)
    requires |h.slots| <= MOST_SLOTS && FitsLoose(c, h, sh, off)
    ensures var (h', err) := Released(h, off);
      err == Ok && Fits(c, h', ReleasedShape(sh)) && FirmKept(sh, h.slots, h'.slots)
    decreases |sh.loose|
  {
    if sh.loose == [] {
      NothingLoose(c, h, sh, off);
    } else {
      var x := sh.loose[0];
      GiveLoose(c, h, sh, off);
      OffNames(|h.slots|, x);
      GivenCount(h, x);
      ReleaseFits(c, Given(h, x), OneReleased(sh), h.slots[x].next);
      ReleasedOnce(sh);
    }
  }

  // ---------- Releasing the chain of a head ----------

  /** The shape after head `x` has given its chain back. */
  ghost function ChainFreed(sh: Shape, x: nat): Shape
    requires x in sh.chains
  {
    sh.(place := seq(|sh.place|,
        i requires 0 <= i < |sh.place| => if sh.place[i] == Overflow(x) then InFree else sh.place[i]),
        free := Reverse(sh.chains[x]) + sh.free, chains := sh.chains[x := []])
  }

  lemma FreedShape(c: Checksum, h: Heap, sh: Shape, x: nat)
    requires Fits(c, h, sh) && x in sh.chains
    ensures sh.loose == [] && ReleasedShape(DetachedShape(sh, x)) == ChainFreed(sh, x)
  {
    Open(c, h, sh);
    assert sh.loose == [];
    forall y: nat | y < |sh.place| ensures sh.place[y] != Loose {
      assert OnePlace(sh.place, y, Loose) ==> y in sh.loose;
    }
    assert ReleasedShape(DetachedShape(sh, x)).place == ChainFreed(sh, x).place;
  }

  /** Releasing a chain on a sound heap succeeds, and touches nothing but the head's link and its chain. */
  lemma ReleaseChainFits(c: Checksum, h: Heap, sh: Shape, x: nat)
    requires Fits(c, h, sh) && x in sh.chains
    ensures x < |h.slots| <= MOST_SLOTS
    ensures var (h', err) := Released(Detached(c, h, x), h.slots[x].next);
      && err == Ok && Fits(c, h', ChainFreed(sh, x)) && |h'.slots| == |h.slots|
      && h'.slots[x].payload == h.slots[x].payload
      && OthersKept(h, sh, h', ChainFreed(sh, x), {x}) && MessagesKept(h, sh, h', ChainFreed(sh, x))
  {
    Open(c, h, sh);
    FreedShape(c, h, sh, x);
    DetachFits(c, h, sh, x);
    var h1, sh1 := Detached(c, h, x), DetachedShape(sh, x);
    ReleaseFits(c, h1, sh1, h.slots[x].next);
    var h' := Released(h1, h.slots[x].next).0;
    assert OnePlace(sh.place, x, Head);
    forall y: nat | y < |h.slots| && sh.place[y] != Overflow(x) ensures h'.slots[y].payload == h.slots[y].payload {
      assert sh1.place[y] != Loose by {
        assert OnePlace(sh.place, y, Loose) ==> y in sh.loose;
      }
      assert h'.slots[y] == h1.slots[y];
    }
    KeepAll(c, h, sh, h', ChainFreed(sh, x), x);
  }
}
