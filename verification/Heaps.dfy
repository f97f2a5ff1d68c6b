/**
 The slot heap: one array of slots whose single link word serves the free list, the queue and the blob chains.
 A shape says what a heap is made of; `Fits` says that every slot is in exactly one place and every list is sound.
 */
module Heaps {
  import opened Base
  import opened Rebuild
  import opened Slots

  const COUNT_SPAN: nat := 0x1_0000_0000

  datatype Heap = Heap(slots: seq<Slot>, freeHead: Word, freeCount: nat, queueHead: Word, queueTail: Word)

  datatype Place = InFree | InQueue | Head | Overflow(of: nat) | Loose

  /**
   Where each slot is; the free list; the queue, its dummy first; the overflow chain of each head that a caller
   owns; and a chain that its owner has let go of, on its way back to the free list.
   */
  datatype Shape = Shape(
    place: seq<Place>,
    free: seq<nat>,
    queue: seq<nat>,
    chains: map<nat, seq<nat>>,
    loose: seq<nat>)

  // ---------- Lists ----------

  ghost predicate OnePlace(place: seq<Place>, x: nat, p: Place) {
    x < |place| && place[x] == p
  }

  function FirstOff(l: seq<nat>): nat {
    if l == [] then 0 else Off(l[0])
  }

  function NextOff(l: seq<nat>, i: nat): nat {
    if i + 1 < |l| then Off(l[i + 1]) else 0
  }

  ghost predicate LinkAt(slots: seq<Slot>, l: seq<nat>, i: nat)
    requires i < |l|
  {
    l[i] < |slots| && slots[l[i]].next == NextOff(l, i)
  }

  ghost predicate Linked(slots: seq<Slot>, l: seq<nat>) {
    forall i: nat :: i < |l| ==> LinkAt(slots, l, i)
  }

  ghost predicate Holds(place: seq<Place>, l: seq<nat>, p: Place) {
    forall x: nat :: x in l <==> OnePlace(place, x, p)
  }

  /** From `off` the links run through `l`, which is exactly the slots in place `p`, and end. */
  ghost predicate ListOk(slots: seq<Slot>, place: seq<Place>, off: nat, l: seq<nat>, p: Place) {
    Distinct(l) && off == FirstOff(l) && Holds(place, l, p) && Linked(slots, l)
  }

  // ---------- The invariant ----------

  function StatusOf(sh: Shape, x: nat): nat
    requires x < |sh.place|
  {
    match sh.place[x]
    case InFree => FREE
    case InQueue => if sh.queue != [] && sh.queue[0] == x then QUEUE_DUMMY else QUEUED
    case Head => USED
    case Overflow(_) => OVERFLOW
    case Loose => OVERFLOW
  }

  ghost predicate SlotOk(c: Checksum, sh: Shape, x: nat, s: Slot)
    requires x < |sh.place|
  {
    && s.status == StatusOf(sh, x) && |s.payload| == PAYLOAD_SIZE
    && (!sh.place[x].Loose? ==> Sealed(c, x, s))
    && (sh.place[x].InFree? ==> s.crc == 0 && s.payload == Zeros(PAYLOAD_SIZE))
    && (s.status == QUEUED ==> s.payload[0] < PAYLOAD_SIZE)
  }

  ghost predicate SlotsOk(c: Checksum, h: Heap, sh: Shape) {
    && |sh.place| == |h.slots| <= MOST_SLOTS
    && forall x: nat :: x < |h.slots| ==> SlotOk(c, sh, x, h.slots[x])
  }

  ghost predicate FreeOk(h: Heap, sh: Shape) {
    ListOk(h.slots, sh.place, h.freeHead, sh.free, InFree) && h.freeCount == |sh.free|
  }

  ghost predicate QueueOk(h: Heap, sh: Shape) {
    && ListOk(h.slots, sh.place, h.queueHead, sh.queue, InQueue)
    && h.queueTail == if sh.queue == [] then 0 else Off(sh.queue[|sh.queue| - 1])
  }

  ghost predicate ChainOk(h: Heap, sh: Shape, x: nat)
    requires x in sh.chains
  {
    x < |h.slots| && ListOk(h.slots, sh.place, h.slots[x].next, sh.chains[x], Overflow(x))
  }

  ghost predicate ChainsOk(h: Heap, sh: Shape) {
    && (forall x: nat :: x in sh.chains <==> OnePlace(sh.place, x, Head))
    && (forall x: nat :: x in sh.chains ==> ChainOk(h, sh, x))
    && (forall y: nat :: y < |sh.place| && sh.place[y].Overflow? ==> sh.place[y].of in sh.chains)
  }

  /**
   Every slot is in exactly one place, the places are the free list, the queue, the heads and their overflow
   chains (and the loose chain, from `off` on), and the free count is the length of the free list.
   */
  ghost predicate FitsLoose(c: Checksum, h: Heap, sh: Shape, off: nat) {
    && SlotsOk(c, h, sh) && FreeOk(h, sh) && QueueOk(h, sh) && ChainsOk(h, sh)
    && ListOk(h.slots, sh.place, off, sh.loose, Loose)
  }

  /** Always true; a proof mentions it where it needs the definition of `Fits`. */
  predicate Opening(k: nat) {
    true
  }

  /** A sound heap: `FitsLoose` with nothing loose, kept closed in the proofs that do not look inside. */
  ghost predicate Fits(c: Checksum, h: Heap, sh: Shape) {
    && |sh.place| == |h.slots| <= MOST_SLOTS
    && forall k: nat {:trigger Opening(k)} :: Opening(k) ==> FitsLoose(c, h, sh, 0)
  }

  lemma Open(c: Checksum, h: Heap, sh: Shape)
    requires Fits(c, h, sh)
    ensures FitsLoose(c, h, sh, 0) && sh.loose == []
  {
    assert Opening(0);
  }

  // ---------- List lemmas ----------

  /** Slots enter or leave place `p` only if they are `x`, and the others keep their links. */
  ghost predicate KeepsBut(slots: seq<Slot>, place: seq<Place>, slots': seq<Slot>, place': seq<Place>, p: Place,
      x: nat) {
    && |slots| <= |slots'|
    && (forall y: nat :: y != x ==> (OnePlace(place', y, p) <==> OnePlace(place, y, p)))
    && (forall y: nat :: y != x && y < |slots| && OnePlace(place, y, p) ==> slots'[y].next == slots[y].next)
  }

  lemma ListFrame(slots: seq<Slot>, place: seq<Place>, slots': seq<Slot>, place': seq<Place>, off: nat, l: seq<nat>,
      p: Place, x: nat)
    requires ListOk(slots, place, off, l, p) && KeepsBut(slots, place, slots', place', p, x)
    requires !OnePlace(place, x, p) && !OnePlace(place', x, p)
    ensures ListOk(slots', place', off, l, p)
  {
    forall i: nat | i < |l| ensures LinkAt(slots', l, i) {
      assert l[i] in l && LinkAt(slots, l, i);
    }
  }

  lemma PushFront(slots: seq<Slot>, place: seq<Place>, slots': seq<Slot>, place': seq<Place>, off: nat, l: seq<nat>,
      p: Place, x: nat)
    requires ListOk(slots, place, off, l, p) && KeepsBut(slots, place, slots', place', p, x)
    requires x < |slots'| && !OnePlace(place, x, p) && OnePlace(place', x, p) && slots'[x].next == off
    ensures ListOk(slots', place', Off(x), [x] + l, p)
  {
    var m := [x] + l;
    assert x !in l;
    forall i: nat, j: nat | i < j < |m| ensures m[i] != m[j] {
      assert m[j] == l[j - 1] && m[j] in l;
      assert i > 0 ==> m[i] == l[i - 1];
    }
    forall i: nat | i < |m| ensures LinkAt(slots', m, i) {
      if i > 0 {
        assert m[i] == l[i - 1] && l[i - 1] in l && LinkAt(slots, l, i - 1);
      }
    }
  }

  lemma PopFront(slots: seq<Slot>, place: seq<Place>, slots': seq<Slot>, place': seq<Place>, off: nat, l: seq<nat>,
      p: Place)
    requires ListOk(slots, place, off, l, p) && l != [] && KeepsBut(slots, place, slots', place', p, l[0])
    requires !OnePlace(place', l[0], p)
    ensures l[0] < |slots| && ListOk(slots', place', slots[l[0]].next, l[1..], p) && l[0] !in l[1..]
  {
    var m := l[1..];
    assert LinkAt(slots, l, 0);
    assert forall y: nat :: y in l <==> y == l[0] || y in m;
    forall i: nat | i < |m| ensures LinkAt(slots', m, i) {
      assert m[i] == l[i + 1] && l[i + 1] in l && LinkAt(slots, l, i + 1);
    }
  }

  /** Appending `x`: the last slot's link, which was zero, now names it. */
  lemma PushBack(slots: seq<Slot>, place: seq<Place>, slots': seq<Slot>, place': seq<Place>, off: nat, off': nat,
      l: seq<nat>, p: Place, x: nat)
    requires ListOk(slots, place, off, l, p) && |slots| <= |slots'|
    requires x < |slots'| && !OnePlace(place, x, p) && OnePlace(place', x, p) && slots'[x].next == 0
    requires forall y: nat :: y != x ==> (OnePlace(place', y, p) <==> OnePlace(place, y, p))
    requires forall y: nat :: y < |slots| && y in l ==>
      slots'[y].next == if y == l[|l| - 1] then Off(x) else slots[y].next
    requires off' == if l == [] then Off(x) else off
    ensures ListOk(slots', place', off', l + [x], p)
  {
    var m := l + [x];
    assert x !in l;
    forall i: nat, j: nat | i < j < |m| ensures m[i] != m[j] {
      assert i < |l| && l[i] in l;
    }
    forall i: nat | i < |m| ensures LinkAt(slots', m, i) {
      if i < |l| {
        assert l[i] in l && LinkAt(slots, l, i);
        assert i < |l| - 1 ==> l[i] != l[|l| - 1];
      }
    }
    assert forall y: nat :: y in m <==> y == x || y in l;
  }

  lemma NoList(slots: seq<Slot>, place: seq<Place>, p: Place)
    requires forall y: nat :: !OnePlace(place, y, p)
    ensures ListOk(slots, place, 0, [], p)
  {
  }

  /** Distinct numbers below `n` are at most `n`. */
  lemma Pigeons(l: seq<nat>, n: nat)
    requires Distinct(l) && forall x: nat :: x in l ==> x < n
    ensures |l| <= n
  {
    BelowCount(n);
    SetOf(l, Below(n));
  }

  lemma {:induction false} SetOf(l: seq<nat>, a: set<nat>)
    requires Distinct(l) && forall x: nat :: x in l ==> x in a
    ensures |l| <= |a|
    decreases l
  {
    if l != [] {
      var m := l[1..];
      assert l[0] in a;
      assert forall x: nat :: x in m ==> exists j: nat :: 1 <= j < |l| && l[j] == x;
      SetOf(m, a - {l[0]});
    }
  }

  lemma FreeFits(h: Heap, sh: Shape, x: nat)
    requires FreeOk(h, sh) && |sh.place| == |h.slots| && x < |h.slots| && sh.place[x] != InFree
    ensures |sh.free| < |h.slots|
  {
    var l := sh.free + [x];
    assert x !in sh.free;
    forall i: nat, j: nat | i < j < |l| ensures l[i] != l[j] {
      assert l[i] in sh.free;
    }
    Pigeons(l, |h.slots|);
  }

  // ---------- Taking a free slot and giving one back ----------

  /** `ef_free_list_pop_atomic` once it has swapped the head, for the slot `x` that was first. */
  function Taken(c: Checksum, h: Heap, x: nat, clear: bool): Heap
    requires x < |h.slots|
  {
    var s := h.slots[x];
    var s' := Seal(c, x, Slot.Slot(USED, s.crc, if clear then Zeros(PAYLOAD_SIZE) else s.payload, 0));
    h.(slots := h.slots[x := s'], freeHead := s.next, freeCount := (h.freeCount + COUNT_SPAN - 1) % COUNT_SPAN)
  }

  ghost function TakenShape(sh: Shape): Shape
    requires sh.free != [] && sh.free[0] < |sh.place|
  {
    var x := sh.free[0];
    sh.(place := sh.place[x := Head], free := sh.free[1..], chains := sh.chains[x := []])
  }

  /** `ef_free_list_push_atomic` for slot `x`. */
  function Given(h: Heap, x: nat): Heap
    requires x < |h.slots| <= MOST_SLOTS
  {
    h.(slots := h.slots[x := Slot.Slot(FREE, 0, Zeros(PAYLOAD_SIZE), h.freeHead)], freeHead := Off(x),
       freeCount := (h.freeCount + 1) % COUNT_SPAN)
  }

  /** One slot `x` changes: lists of other places stay as they are. */
  ghost predicate OneSlot(h: Heap, sh: Shape, h': Heap, sh': Shape, x: nat) {
    && |h.slots| == |sh.place| == |h'.slots| == |sh'.place| && x < |h.slots|
    && h'.slots == h.slots[x := h'.slots[x]] && sh'.place == sh.place[x := sh'.place[x]]
  }

  lemma OneSlotKeeps(h: Heap, sh: Shape, h': Heap, sh': Shape, x: nat, p: Place)
    requires OneSlot(h, sh, h', sh', x)
    ensures KeepsBut(h.slots, sh.place, h'.slots, sh'.place, p, x)
  {
  }

  lemma OneSlotList(h: Heap, sh: Shape, h': Heap, sh': Shape, x: nat, off: nat, l: seq<nat>, p: Place)
    requires OneSlot(h, sh, h', sh', x) && ListOk(h.slots, sh.place, off, l, p) && sh.place[x] != p && sh'.place[x] != p
    ensures ListOk(h'.slots, sh'.place, off, l, p)
  {
    OneSlotKeeps(h, sh, h', sh', x, p);
    ListFrame(h.slots, sh.place, h'.slots, sh'.place, off, l, p, x);
  }

  lemma OneSlotQueue(h: Heap, sh: Shape, h': Heap, sh': Shape, x: nat)
    requires OneSlot(h, sh, h', sh', x) && QueueOk(h, sh) && sh.place[x] != InQueue && sh'.place[x] != InQueue
    requires sh'.queue == sh.queue && h'.queueHead == h.queueHead && h'.queueTail == h.queueTail
    ensures QueueOk(h', sh')
  {
    OneSlotList(h, sh, h', sh', x, h.queueHead, sh.queue, InQueue);
  }

  lemma OneSlotFree(h: Heap, sh: Shape, h': Heap, sh': Shape, x: nat)
    requires OneSlot(h, sh, h', sh', x) && FreeOk(h, sh) && sh.place[x] != InFree && sh'.place[x] != InFree
    requires sh'.free == sh.free && h'.freeHead == h.freeHead && h'.freeCount == h.freeCount
    ensures FreeOk(h', sh')
  {
    OneSlotList(h, sh, h', sh', x, h.freeHead, sh.free, InFree);
  }

  /** The chains of the heads other than `x` stay, if `x` is in none of them before or after. */
  lemma OneSlotChains(h: Heap, sh: Shape, h': Heap, sh': Shape, x: nat)
    requires OneSlot(h, sh, h', sh', x) && ChainsOk(h, sh)
    requires !sh.place[x].Overflow? && !sh'.place[x].Overflow?
    requires forall y: nat :: y != x ==> (y in sh'.chains <==> y in sh.chains)
    requires forall y: nat :: y != x && y in sh.chains ==> sh'.chains[y] == sh.chains[y]
    ensures forall y: nat :: y != x && y in sh'.chains ==> ChainOk(h', sh', y)
  {
    forall y: nat | y != x && y in sh'.chains ensures ChainOk(h', sh', y) {
      assert ChainOk(h, sh, y);
      OneSlotList(h, sh, h', sh', x, h.slots[y].next, sh.chains[y], Overflow(y));
    }
  }

  lemma OneSlotSlots(c: Checksum, h: Heap, sh: Shape, h': Heap, sh': Shape, x: nat)
    requires OneSlot(h, sh, h', sh', x) && SlotsOk(c, h, sh)
    requires sh'.queue == sh.queue && SlotOk(c, sh', x, h'.slots[x])
    ensures SlotsOk(c, h', sh')
  {
    forall y: nat | y < |h'.slots| ensures SlotOk(c, sh', y, h'.slots[y]) {
      assert y != x ==> SlotOk(c, sh, y, h.slots[y]);
    }
  }

  lemma EmptyChain(h: Heap, sh: Shape, x: nat)
    requires ChainsOk(h, sh) && x in sh.chains && sh.chains[x] == []
    ensures forall y: nat :: y < |sh.place| && sh.place[y].Overflow? ==> sh.place[y].of != x
  {
    assert ChainOk(h, sh, x);
    forall y: nat | y < |sh.place| && sh.place[y].Overflow? ensures sh.place[y].of != x {
      assert y in [] <==> OnePlace(sh.place, y, Overflow(x));
    }
  }

  /** Allocation hands out the first free slot, and the rest still fits. */
  lemma TakeFits(c: Checksum, h: Heap, sh: Shape, clear: bool)
    requires Fits(c, h, sh) && sh.free != []
    ensures sh.free[0] < |h.slots| && h.freeHead == Off(sh.free[0]) && h.freeCount > 0 && sh.place[sh.free[0]] == InFree
    ensures Fits(c, Taken(c, h, sh.free[0], clear), TakenShape(sh))
    ensures Taken(c, h, sh.free[0], clear) == Taken(c, h, sh.free[0], true)
  {
    Open(c, h, sh);
    var x := sh.free[0];
    assert x in sh.free && OnePlace(sh.place, x, InFree);
    var h', sh' := Taken(c, h, x, clear), TakenShape(sh);
    assert SlotOk(c, sh, x, h.slots[x]);
    assert SlotOk(c, sh', x, h'.slots[x]);
    OneSlotSlots(c, h, sh, h', sh', x);
    OneSlotKeeps(h, sh, h', sh', x, InFree);
    Pigeons(sh.free, |h.slots|);
    PopFront(h.slots, sh.place, h'.slots, sh'.place, h.freeHead, sh.free, InFree);
    OneSlotQueue(h, sh, h', sh', x);
    OneSlotList(h, sh, h', sh', x, 0, sh.loose, Loose);
    OneSlotChains(h, sh, h', sh', x);
    assert x !in sh.chains;
    NoList(h'.slots, sh'.place, Overflow(x));
  }

  /** A slot in a caller's hands goes to the front of the free list. */
  lemma GiveHead(c: Checksum, h: Heap, sh: Shape, x: nat)
    requires Fits(c, h, sh) && x in sh.chains && sh.chains[x] == []
    ensures x < |h.slots|
    ensures Fits(c, Given(h, x), sh.(place := sh.place[x := InFree], free := [x] + sh.free, chains := sh.chains - {x}))
  {
    Open(c, h, sh);
    assert OnePlace(sh.place, x, Head) && ChainOk(h, sh, x);
    var h' := Given(h, x);
    var sh' := sh.(place := sh.place[x := InFree], free := [x] + sh.free, chains := sh.chains - {x});
    FreeFits(h, sh, x);
    OneSlotSlots(c, h, sh, h', sh', x);
    OneSlotKeeps(h, sh, h', sh', x, InFree);
    PushFront(h.slots, sh.place, h'.slots, sh'.place, h.freeHead, sh.free, InFree, x);
    OneSlotQueue(h, sh, h', sh', x);
    OneSlotList(h, sh, h', sh', x, 0, sh.loose, Loose);
    OneSlotChains(h, sh, h', sh', x);
    EmptyChain(h, sh, x);
  }

  lemma GiveLoose(c: Checksum, h: Heap, sh: Shape, off: nat)
    requires FitsLoose(c, h, sh, off) && sh.loose != []
    ensures off == Off(sh.loose[0]) && sh.loose[0] < |h.slots| == |sh.place| && h.slots[sh.loose[0]].status == OVERFLOW
    ensures sh.place[sh.loose[0]] == Loose
    ensures var x := sh.loose[0];
      FitsLoose(c, Given(h, x), sh.(place := sh.place[x := InFree], free := [x] + sh.free, loose := sh.loose[1..]),
          h.slots[x].next)
  {
    var x := sh.loose[0];
    assert x in sh.loose && OnePlace(sh.place, x, Loose);
    assert SlotOk(c, sh, x, h.slots[x]);
    var h' := Given(h, x);
    var sh' := sh.(place := sh.place[x := InFree], free := [x] + sh.free, loose := sh.loose[1..]);
    FreeFits(h, sh, x);
    OneSlotSlots(c, h, sh, h', sh', x);
    OneSlotKeeps(h, sh, h', sh', x, InFree);
    OneSlotKeeps(h, sh, h', sh', x, Loose);
    PushFront(h.slots, sh.place, h'.slots, sh'.place, h.freeHead, sh.free, InFree, x);
    PopFront(h.slots, sh.place, h'.slots, sh'.place, off, sh.loose, Loose);
    OneSlotQueue(h, sh, h', sh', x);
    OneSlotChains(h, sh, h', sh', x);
  }

  // ---------- Chains let go of and grown ----------

  /** `ef_blob_release_chain`, first lines: the head lets go of its chain. */
  function Detached(c: Checksum, h: Heap, x: nat): Heap
    requires x < |h.slots|
  {
    h.(slots := h.slots[x := Seal(c, x, h.slots[x].(next := 0))])
  }

  ghost function DetachedShape(sh: Shape, x: nat): Shape
    requires x in sh.chains
  {
    sh.(place := seq(|sh.place|,
        i requires 0 <= i < |sh.place| => if sh.place[i] == Overflow(x) then Loose else sh.place[i]),
        chains := sh.chains[x := []], loose := sh.chains[x])
  }

  lemma DetachList(c: Checksum, h: Heap, sh: Shape, x: nat, off: nat, l: seq<nat>, p: Place)
    requires x in sh.chains && OnePlace(sh.place, x, Head) && |sh.place| == |h.slots|
    requires ListOk(h.slots, sh.place, off, l, p) && p != Overflow(x) && p != Loose && p != Head
    ensures ListOk(Detached(c, h, x).slots, DetachedShape(sh, x).place, off, l, p)
  {
    ListFrame(h.slots, sh.place, Detached(c, h, x).slots, DetachedShape(sh, x).place, off, l, p, x);
  }

  lemma DetachFits(c: Checksum, h: Heap, sh: Shape, x: nat)
    requires Fits(c, h, sh) && x in sh.chains && sh.loose == []
    ensures x < |h.slots| && FitsLoose(c, Detached(c, h, x), DetachedShape(sh, x), h.slots[x].next)
  {
    Open(c, h, sh);
    assert OnePlace(sh.place, x, Head) && ChainOk(h, sh, x);
    var h', sh' := Detached(c, h, x), DetachedShape(sh, x);
    DetachList(c, h, sh, x, h.freeHead, sh.free, InFree);
    DetachList(c, h, sh, x, h.queueHead, sh.queue, InQueue);
    DetachSlots(c, h, sh, x);
    DetachLoose(c, h, sh, x);
    NoList(h'.slots, sh'.place, Overflow(x));
    forall y: nat | y in sh'.chains ensures ChainOk(h', sh', y) {
      if y != x {
        assert ChainOk(h, sh, y);
        DetachList(c, h, sh, x, h.slots[y].next, sh.chains[y], Overflow(y));
      }
    }
    forall y: nat ensures y in sh'.chains <==> OnePlace(sh'.place, y, Head) {
      assert y in sh.chains <==> OnePlace(sh.place, y, Head);
    }
  }

  lemma DetachSlots(c: Checksum, h: Heap, sh: Shape, x: nat)
    requires SlotsOk(c, h, sh) && x in sh.chains && OnePlace(sh.place, x, Head)
    ensures SlotsOk(c, Detached(c, h, x), DetachedShape(sh, x))
  {
    var h', sh' := Detached(c, h, x), DetachedShape(sh, x);
    forall y: nat | y < |h'.slots| ensures SlotOk(c, sh', y, h'.slots[y]) {
      assert SlotOk(c, sh, y, h.slots[y]);
    }
  }

  lemma DetachLoose(c: Checksum, h: Heap, sh: Shape, x: nat)
    requires x in sh.chains && OnePlace(sh.place, x, Head) && ChainOk(h, sh, x) && |sh.place| == |h.slots|
    requires Holds(sh.place, [], Loose)
    ensures ListOk(Detached(c, h, x).slots, DetachedShape(sh, x).place, h.slots[x].next, sh.chains[x], Loose)
  {
    var slots', place', l := Detached(c, h, x).slots, DetachedShape(sh, x).place, sh.chains[x];
    forall y: nat ensures y in l <==> OnePlace(place', y, Loose) {
      assert y in l <==> OnePlace(sh.place, y, Overflow(x));
      assert OnePlace(sh.place, y, Loose) ==> y in [];
    }
    forall i: nat | i < |l| ensures LinkAt(slots', l, i) {
      assert l[i] in l && LinkAt(h.slots, l, i);
    }
  }

  /** The last slot of the chain of `x`, or `x` itself. */
  function Last(x: nat, chain: seq<nat>): nat {
    if chain == [] then x else chain[|chain| - 1]
  }

  /** One turn of the loop of `ef_write_blob`: slot `v`, just taken, is filled and linked after `tail`. */
  function Attached(c: Checksum, h: Heap, tail: nat, v: nat, payload: seq<Byte>): Heap
    requires tail < |h.slots| && v < |h.slots| && tail != v && |h.slots| <= MOST_SLOTS
  {
    var s := Seal(c, v, Slot.Slot(OVERFLOW, h.slots[v].crc, payload, h.slots[v].next));
    h.(slots := h.slots[v := s][tail := Seal(c, tail, h.slots[tail].(next := Off(v)))])
  }

  ghost function AttachedShape(sh: Shape, x: nat, v: nat): Shape
    requires x in sh.chains && v < |sh.place|
  {
    sh.(place := sh.place[v := Overflow(x)], chains := (sh.chains - {v})[x := sh.chains[x] + [v]])
  }

  /** Two slots change, `x` with its place and `t` without. */
  ghost predicate TwoSlots(h: Heap, sh: Shape, h': Heap, sh': Shape, x: nat, t: nat) {
    && |h.slots| == |sh.place| == |h'.slots| == |sh'.place| && x < |h.slots| && t < |h.slots| && x != t
    && h'.slots == h.slots[x := h'.slots[x]][t := h'.slots[t]] && sh'.place == sh.place[x := sh'.place[x]]
  }

  lemma TwoSlotsList(h: Heap, sh: Shape, h': Heap, sh': Shape, x: nat, t: nat, off: nat, l: seq<nat>, p: Place)
    requires TwoSlots(h, sh, h', sh', x, t) && ListOk(h.slots, sh.place, off, l, p)
    requires sh.place[x] != p && sh'.place[x] != p && sh.place[t] != p
    ensures ListOk(h'.slots, sh'.place, off, l, p)
  {
    ListFrame(h.slots, sh.place, h'.slots, sh'.place, off, l, p, x);
  }

  lemma TwoSlotsSlots(c: Checksum, h: Heap, sh: Shape, h': Heap, sh': Shape, x: nat, t: nat)
    requires TwoSlots(h, sh, h', sh', x, t) && SlotsOk(c, h, sh)
    requires SlotOk(c, sh', x, h'.slots[x]) && SlotOk(c, sh', t, h'.slots[t])
    requires forall y: nat :: y < |sh.place| && y != x && y != t ==> StatusOf(sh', y) == StatusOf(sh, y)
    ensures SlotsOk(c, h', sh')
  {
    forall y: nat | y < |h'.slots| ensures SlotOk(c, sh', y, h'.slots[y]) {
      if y != x && y != t {
        assert SlotOk(c, sh, y, h.slots[y]);
      }
    }
  }

  lemma AttachOwn(c: Checksum, h: Heap, sh: Shape, x: nat, v: nat, payload: seq<Byte>)
    requires SlotsOk(c, h, sh) && x in sh.chains && ChainOk(h, sh, x) && OnePlace(sh.place, x, Head)
    requires v in sh.chains && OnePlace(sh.place, v, Head) && v != x && h.slots[v].next == 0
    ensures var t := Last(x, sh.chains[x]);
      && t < |h.slots| && t != v && (sh.place[t] == Head ==> t == x) && (sh.place[t] != Head ==>
        sh.place[t] == Overflow(x))
      && ChainOk(Attached(c, h, t, v, payload), AttachedShape(sh, x, v), x)
  {
    var l := sh.chains[x];
    var t := Last(x, l);
    if l != [] {
      assert t in l && OnePlace(sh.place, t, Overflow(x)) && LinkAt(h.slots, l, |l| - 1);
    }
    var h', sh' := Attached(c, h, t, v, payload), AttachedShape(sh, x, v);
    PushBack(h.slots, sh.place, h'.slots, sh'.place, h.slots[x].next, h'.slots[x].next, l, Overflow(x), v);
  }

  lemma AttachChains(c: Checksum, h: Heap, sh: Shape, x: nat, v: nat, payload: seq<Byte>)
    requires SlotsOk(c, h, sh) && ChainsOk(h, sh) && x in sh.chains && v in sh.chains && v != x && sh.chains[v] == []
    requires |payload| == PAYLOAD_SIZE
    ensures v < |h.slots| && Last(x, sh.chains[x]) < |h.slots| && Last(x, sh.chains[x]) != v
    ensures ChainsOk(Attached(c, h, Last(x, sh.chains[x]), v, payload), AttachedShape(sh, x, v))
  {
    assert OnePlace(sh.place, x, Head) && OnePlace(sh.place, v, Head) && ChainOk(h, sh, x) && ChainOk(h, sh, v);
    AttachOwn(c, h, sh, x, v, payload);
    var t := Last(x, sh.chains[x]);
    var h', sh' := Attached(c, h, t, v, payload), AttachedShape(sh, x, v);
    forall y: nat | y in sh'.chains ensures ChainOk(h', sh', y) {
      if y != x {
        assert ChainOk(h, sh, y);
        TwoSlotsList(h, sh, h', sh', v, t, h.slots[y].next, sh.chains[y], Overflow(y));
      }
    }
    EmptyChain(h, sh, v);
  }

  lemma AttachSlots(c: Checksum, h: Heap, sh: Shape, t: nat, x: nat, v: nat, payload: seq<Byte>)
    requires SlotsOk(c, h, sh) && |payload| == PAYLOAD_SIZE && x in sh.chains
    requires v < |h.slots| && t < |h.slots| && t != v && !sh.place[v].InQueue? && !sh.place[t].InQueue?
    requires !sh.place[t].InFree?
    ensures SlotsOk(c, Attached(c, h, t, v, payload), AttachedShape(sh, x, v))
  {
    var h', sh' := Attached(c, h, t, v, payload), AttachedShape(sh, x, v);
    assert SlotOk(c, sh, v, h.slots[v]) && SlotOk(c, sh, t, h.slots[t]);
    TwoSlotsSlots(c, h, sh, h', sh', v, t);
  }

  lemma AttachFits(c: Checksum, h: Heap, sh: Shape, x: nat, v: nat, payload: seq<Byte>)
    requires Fits(c, h, sh) && x in sh.chains && v in sh.chains && v != x && sh.chains[v] == []
    requires |payload| == PAYLOAD_SIZE
    ensures v < |h.slots| && Last(x, sh.chains[x]) < |h.slots| && Last(x, sh.chains[x]) != v
    ensures Fits(c, Attached(c, h, Last(x, sh.chains[x]), v, payload), AttachedShape(sh, x, v))
  {
    Open(c, h, sh);
    AttachChains(c, h, sh, x, v, payload);
    var l := sh.chains[x];
    var t := Last(x, l);
    var h', sh' := Attached(c, h, t, v, payload), AttachedShape(sh, x, v);
    assert sh.place[v] == Head && (sh.place[t] == Head || sh.place[t] == Overflow(x)) by {
      assert OnePlace(sh.place, x, Head) && OnePlace(sh.place, v, Head) && ChainOk(h, sh, x);
      assert t in l ==> OnePlace(sh.place, t, Overflow(x));
    }
    AttachSlots(c, h, sh, t, x, v, payload);
    TwoSlotsList(h, sh, h', sh', v, t, h.freeHead, sh.free, InFree);
    TwoSlotsList(h, sh, h', sh', v, t, h.queueHead, sh.queue, InQueue);
    TwoSlotsList(h, sh, h', sh', v, t, 0, sh.loose, Loose);
  }

  /** The payload of a head is written. */
  function Written(c: Checksum, h: Heap, x: nat, payload: seq<Byte>): Heap
    requires x < |h.slots|
  {
    h.(slots := h.slots[x := Seal(c, x, h.slots[x].(payload := payload))])
  }

  lemma WriteFits(c: Checksum, h: Heap, sh: Shape, x: nat, payload: seq<Byte>)
    requires Fits(c, h, sh) && x in sh.chains && |payload| == PAYLOAD_SIZE
    ensures x < |h.slots| && Fits(c, Written(c, h, x, payload), sh)
  {
    Open(c, h, sh);
    assert OnePlace(sh.place, x, Head) && ChainOk(h, sh, x);
    assert SlotOk(c, sh, x, h.slots[x]);
    var h' := Written(c, h, x, payload);
    OneSlotSlots(c, h, sh, h', sh, x);
    OneSlotFree(h, sh, h', sh, x);
    OneSlotQueue(h, sh, h', sh, x);
    OneSlotList(h, sh, h', sh, x, 0, sh.loose, Loose);
    OneSlotChains(h, sh, h', sh, x);
    OneSlotList(h, sh, h', sh, x, h.slots[x].next, sh.chains[x], Overflow(x));
  }

  // ---------- The queue ----------

  /** `ef_queue_dummy_offset`: slot `d`, just taken, becomes the dummy of an empty queue. */
  function Dummied(c: Checksum, h: Heap, d: nat): Heap
    requires d < |h.slots| <= MOST_SLOTS
  {
    var s := Seal(c, d, Slot.Slot(QUEUE_DUMMY, h.slots[d].crc, Zeros(PAYLOAD_SIZE), 0));
    h.(slots := h.slots[d := s], queueHead := Off(d), queueTail := Off(d))
  }

  ghost function DummiedShape(sh: Shape, d: nat): Shape
    requires d < |sh.place|
  {
    sh.(place := sh.place[d := InQueue], queue := [d], chains := sh.chains - {d})
  }

  lemma HeadLeaves(h: Heap, sh: Shape, h': Heap, sh': Shape, x: nat)
    requires OneSlot(h, sh, h', sh', x) && ChainsOk(h, sh) && x in sh.chains && sh.chains[x] == []
    requires sh'.chains == sh.chains - {x} && sh'.place[x] == InQueue
    ensures ChainsOk(h', sh')
  {
    assert OnePlace(sh.place, x, Head) && ChainOk(h, sh, x);
    OneSlotChains(h, sh, h', sh', x);
    EmptyChain(h, sh, x);
  }

  lemma DummyFits(c: Checksum, h: Heap, sh: Shape, d: nat)
    requires Fits(c, h, sh) && sh.queue == [] && d in sh.chains && sh.chains[d] == []
    ensures d < |h.slots| && Fits(c, Dummied(c, h, d), DummiedShape(sh, d))
  {
    Open(c, h, sh);
    assert OnePlace(sh.place, d, Head) && ChainOk(h, sh, d);
    var h', sh' := Dummied(c, h, d), DummiedShape(sh, d);
    forall y: nat | y < |h'.slots| ensures SlotOk(c, sh', y, h'.slots[y]) {
      assert SlotOk(c, sh, y, h.slots[y]);
      assert OnePlace(sh.place, y, InQueue) ==> y in sh.queue;
    }
    OneSlotFree(h, sh, h', sh', d);
    OneSlotKeeps(h, sh, h', sh', d, InQueue);
    PushFront(h.slots, sh.place, h'.slots, sh'.place, h.queueHead, sh.queue, InQueue, d);
    OneSlotList(h, sh, h', sh', d, 0, sh.loose, Loose);
    HeadLeaves(h, sh, h', sh', d);
  }

  /** `ef_queue_enqueue_mpmc`: slot `x`, in the caller's hands, is linked after the tail. */
  function Enqueued(c: Checksum, h: Heap, tail: nat, x: nat): Heap
    requires x < |h.slots| <= MOST_SLOTS && tail < |h.slots| && tail != x
  {
    var s := Seal(c, x, h.slots[x].(status := QUEUED, next := 0));
    h.(slots := h.slots[x := s][tail := Seal(c, tail, h.slots[tail].(next := Off(x)))], queueTail := Off(x))
  }

  ghost function EnqueuedShape(sh: Shape, x: nat): Shape
    requires x < |sh.place|
  {
    sh.(place := sh.place[x := InQueue], queue := sh.queue + [x], chains := sh.chains - {x})
  }

  lemma EnqueueFits(c: Checksum, h: Heap, sh: Shape, x: nat)
    requires Fits(c, h, sh) && sh.queue != [] && x in sh.chains && sh.chains[x] == []
    requires x < |h.slots| && |h.slots[x].payload| == PAYLOAD_SIZE && h.slots[x].payload[0] < PAYLOAD_SIZE
    ensures var tail := sh.queue[|sh.queue| - 1];
      tail < |h.slots| && tail != x && h.queueTail == Off(tail)
        && Fits(c, Enqueued(c, h, tail, x), EnqueuedShape(sh, x))
  {
    Open(c, h, sh);
    var q := sh.queue;
    var t := q[|q| - 1];
    assert t in q && q[0] in q && OnePlace(sh.place, t, InQueue);
    assert OnePlace(sh.place, x, Head) && ChainOk(h, sh, x) && LinkAt(h.slots, q, |q| - 1);
    var h', sh' := Enqueued(c, h, t, x), EnqueuedShape(sh, x);
    assert SlotOk(c, sh, x, h.slots[x]) && SlotOk(c, sh, t, h.slots[t]);
    TwoSlotsSlots(c, h, sh, h', sh', x, t);
    TwoSlotsList(h, sh, h', sh', x, t, h.freeHead, sh.free, InFree);
    TwoSlotsList(h, sh, h', sh', x, t, 0, sh.loose, Loose);
    PushBack(h.slots, sh.place, h'.slots, sh'.place, h.queueHead, h'.queueHead, q, InQueue, x);
    TwoSlotsChains(h, sh, h', sh', x, t);
  }

  lemma TwoSlotsChains(h: Heap, sh: Shape, h': Heap, sh': Shape, x: nat, t: nat)
    requires TwoSlots(h, sh, h', sh', x, t) && ChainsOk(h, sh)
    requires x in sh.chains && sh.chains[x] == [] && sh'.chains == sh.chains - {x}
    requires sh.place[t] == InQueue && sh'.place[x] == InQueue
    ensures ChainsOk(h', sh')
  {
    assert OnePlace(sh.place, x, Head) && ChainOk(h, sh, x);
    forall y: nat | y in sh'.chains ensures ChainOk(h', sh', y) {
      assert ChainOk(h, sh, y) && OnePlace(sh.place, y, Head);
      TwoSlotsList(h, sh, h', sh', x, t, h.slots[y].next, sh.chains[y], Overflow(y));
    }
    EmptyChain(h, sh, x);
  }

  /** `ef_queue_dequeue_mpmc`: the first message's slot `f` leaves the queue for the free list. */
  function Dequeued(c: Checksum, h: Heap, d: nat, f: nat): Heap
    requires d < |h.slots| <= MOST_SLOTS && f < |h.slots| && d != f
  {
    var n := h.slots[f].next;
    var tail: Word := if h.queueTail == Off(f) then (if n != 0 then n else Off(d)) else h.queueTail;
    Given(h.(slots := h.slots[d := Seal(c, d, h.slots[d].(next := n))], queueTail := tail), f)
  }

  ghost function DequeuedShape(sh: Shape): Shape
    requires |sh.queue| >= 2 && sh.queue[1] < |sh.place|
  {
    var f := sh.queue[1];
    sh.(place := sh.place[f := InFree], free := [f] + sh.free, queue := [sh.queue[0]] + sh.queue[2..])
  }

  lemma DequeueList(c: Checksum, h: Heap, sh: Shape)
    requires QueueOk(h, sh) && |sh.place| == |h.slots| <= MOST_SLOTS && |sh.queue| >= 2
    ensures var d, f := sh.queue[0], sh.queue[1];
      && d < |h.slots| && f < |h.slots| && d != f && sh.place[d] == InQueue && sh.place[f] == InQueue
      && h.queueHead == Off(d) && h.slots[d].next == Off(f)
      && QueueOk(Dequeued(c, h, d, f), DequeuedShape(sh))
  {
    var q := sh.queue;
    var d, f := q[0], q[1];
    assert d in q && f in q && OnePlace(sh.place, d, InQueue) && OnePlace(sh.place, f, InQueue);
    assert LinkAt(h.slots, q, 0) && LinkAt(h.slots, q, 1);
    var h', sh', r := Dequeued(c, h, d, f), DequeuedShape(sh), [d] + q[2..];
    assert forall i: nat :: 0 < i < |r| ==> r[i] == q[i + 1];
    forall y: nat ensures y in r <==> OnePlace(sh'.place, y, InQueue) {
      assert y in q <==> OnePlace(sh.place, y, InQueue);
      InDropped(q, y);
    }
    forall i: nat | i < |r| ensures LinkAt(h'.slots, r, i) {
      if i > 0 {
        assert r[i] in q && LinkAt(h.slots, q, i + 1);
      }
    }
    if |q| > 2 {
      assert q[|q| - 1] != f;
    }
  }

  lemma InDropped(q: seq<nat>, y: nat)
    requires Distinct(q) && |q| >= 2
    ensures y in [q[0]] + q[2..] <==> y in q && y != q[1]
  {
    var r := [q[0]] + q[2..];
    assert forall i: nat :: 0 < i < |r| ==> r[i] == q[i + 1];
    if y in q && y != q[1] {
      var i: nat :| i < |q| && q[i] == y;
      assert i >= 2 ==> r[i - 1] == y;
    }
  }

  lemma DequeueFits(c: Checksum, h: Heap, sh: Shape)
    requires Fits(c, h, sh) && |sh.queue| >= 2
    ensures var d, f := sh.queue[0], sh.queue[1];
      && d < |h.slots| && f < |h.slots| && d != f
      && h.queueHead == Off(d) && h.slots[d].next == Off(f) && h.slots[d].status == QUEUE_DUMMY
        && h.slots[f].status == QUEUED
      && Fits(c, Dequeued(c, h, d, f), DequeuedShape(sh))
  {
    Open(c, h, sh);
    DequeueList(c, h, sh);
    var d, f := sh.queue[0], sh.queue[1];
    var h', sh' := Dequeued(c, h, d, f), DequeuedShape(sh);
    assert SlotOk(c, sh, f, h.slots[f]) && SlotOk(c, sh, d, h.slots[d]);
    TwoSlotsSlots(c, h, sh, h', sh', f, d);
    FreeFits(h, sh, f);
    PushFront(h.slots, sh.place, h'.slots, sh'.place, h.freeHead, sh.free, InFree, f);
    TwoSlotsList(h, sh, h', sh', f, d, 0, sh.loose, Loose);
    forall y: nat | y in sh'.chains ensures ChainOk(h', sh', y) {
      assert ChainOk(h, sh, y) && OnePlace(sh.place, y, Head);
      TwoSlotsList(h, sh, h', sh', f, d, h.slots[y].next, sh.chains[y], Overflow(y));
    }
  }

  // ---------- Growing ----------

  /** One turn of the loop of `ef_grow_append_slots`: a new slot, free and first on the list. */
  function Grown(h: Heap): Heap
    requires |h.slots| < MOST_SLOTS
  {
    h.(slots := h.slots + [Slot.Slot(FREE, 0, Zeros(PAYLOAD_SIZE), h.freeHead)], freeHead := Off(|h.slots|),
       freeCount := (h.freeCount + 1) % COUNT_SPAN)
  }

  ghost function GrownShape(sh: Shape): Shape {
    sh.(place := sh.place + [InFree], free := [|sh.place|] + sh.free)
  }

  lemma GrowSlots(c: Checksum, h: Heap, sh: Shape)
    requires SlotsOk(c, h, sh) && |h.slots| < MOST_SLOTS
    ensures SlotsOk(c, Grown(h), GrownShape(sh))
  {
    var h', sh' := Grown(h), GrownShape(sh);
    forall y: nat | y < |h'.slots| ensures SlotOk(c, sh', y, h'.slots[y]) {
      if y < |h.slots| {
        assert SlotOk(c, sh, y, h.slots[y]);
      } else {
        assert sh'.place[y] == InFree;
      }
    }
  }

  lemma GrowFits(c: Checksum, h: Heap, sh: Shape)
    requires Fits(c, h, sh) && |h.slots| < MOST_SLOTS
    ensures Fits(c, Grown(h), GrownShape(sh))
  {
    Open(c, h, sh);
    var h', sh', x := Grown(h), GrownShape(sh), |h.slots|;
    assert forall y: nat :: y in sh.free ==> OnePlace(sh.place, y, InFree);
    Pigeons(sh.free, |h.slots|);
    GrowSlots(c, h, sh);
    PushFront(h.slots, sh.place, h'.slots, sh'.place, h.freeHead, sh.free, InFree, x);
    ListFrame(h.slots, sh.place, h'.slots, sh'.place, h.queueHead, sh.queue, InQueue, x);
    ListFrame(h.slots, sh.place, h'.slots, sh'.place, 0, sh.loose, Loose, x);
    forall y: nat | y in sh'.chains ensures ChainOk(h', sh', y) {
      assert ChainOk(h, sh, y);
      ListFrame(h.slots, sh.place, h'.slots, sh'.place, h.slots[y].next, sh.chains[y], Overflow(y), x);
    }
    forall y: nat ensures y in sh'.chains <==> OnePlace(sh'.place, y, Head) {
      assert y in sh.chains <==> OnePlace(sh.place, y, Head);
    }
  }

  // ---------- Claiming a free slot out of turn ----------

  /** `ef_claim_slot` for the free slot number `i` of the list, found by `ef_unlink_free_slot`. */
  function Claimed(c: Checksum, h: Heap, x: nat, before: Option<nat>): Heap
    requires x < |h.slots| && (before.Some? ==> before.value < |h.slots| && before.value != x)
  {
    var n := h.slots[x].next;
    var h1 := if before.None? then h.(freeHead := n)
              else h.(slots := h.slots[before.value := h.slots[before.value].(next := n)]);
    h1.(slots := h1.slots[x := Seal(c, x, h1.slots[x].(status := USED, next := 0))],
        freeCount := if h.freeCount > 0 then (h.freeCount + COUNT_SPAN - 1) % COUNT_SPAN else h.freeCount)
  }

  function Without(l: seq<nat>, i: nat): seq<nat>
    requires i < |l|
  {
    l[..i] + l[i + 1..]
  }

  ghost function ClaimedShape(sh: Shape, i: nat): Shape
    requires i < |sh.free| && sh.free[i] < |sh.place|
  {
    var x := sh.free[i];
    sh.(place := sh.place[x := Head], free := Without(sh.free, i), chains := sh.chains[x := []])
  }

  lemma InWithout(l: seq<nat>, i: nat, y: nat)
    requires Distinct(l) && i < |l|
    ensures Distinct(Without(l, i)) && (y in Without(l, i) <==> y in l && y != l[i])
  {
    var m := Without(l, i);
    assert forall j: nat :: j < |m| ==> m[j] == if j < i then l[j] else l[j + 1];
    if y in l && y != l[i] {
      var j: nat :| j < |l| && l[j] == y;
      assert m[if j < i then j else j - 1] == y;
    }
  }

  lemma WithoutHolds(l: seq<nat>, i: nat, place: seq<Place>, place': seq<Place>, p: Place)
    requires Distinct(l) && i < |l| && Holds(place, l, p)
    requires forall y: nat :: OnePlace(place', y, p) <==> y != l[i] && OnePlace(place, y, p)
    ensures Holds(place', Without(l, i), p) && Distinct(Without(l, i))
  {
    InWithout(l, i, l[i]);
    forall y: nat ensures y in Without(l, i) <==> OnePlace(place', y, p) {
      InWithout(l, i, y);
      assert y in l <==> OnePlace(place, y, p);
    }
  }

  lemma WithoutLinks(l: seq<nat>, i: nat, slots: seq<Slot>, slots': seq<Slot>)
    requires Distinct(l) && 0 < i < |l| && Linked(slots, l) && |slots'| == |slots|
    requires forall y: nat :: y in l && y != l[i] ==>
               y < |slots| && l[i] < |slots|
                 && slots'[y].next == if y == l[i - 1] then slots[l[i]].next else slots[y].next
    ensures Linked(slots', Without(l, i))
  {
    var m := Without(l, i);
    assert LinkAt(slots, l, i);
    forall j: nat | j < |m| ensures LinkAt(slots', m, j) {
      var k := if j < i then j else j + 1;
      assert m[j] == l[k] && l[k] in l && l[k] != l[i];
      assert LinkAt(slots, l, k);
      assert j != i - 1 ==> l[k] != l[i - 1];
    }
  }

  lemma ClaimList(c: Checksum, h: Heap, sh: Shape, i: nat)
    requires SlotsOk(c, h, sh) && FreeOk(h, sh) && 0 < i < |sh.free|
    ensures var x, b := sh.free[i], sh.free[i - 1];
      && x < |h.slots| && b < |h.slots| && x != b && sh.place[x] == InFree && sh.place[b] == InFree
      && h.slots[b].next == Off(x) && FreeOk(Claimed(c, h, x, Some(b)), ClaimedShape(sh, i))
  {
    var l := sh.free;
    var x, b := l[i], l[i - 1];
    assert x in l && b in l && OnePlace(sh.place, x, InFree) && OnePlace(sh.place, b, InFree);
    assert LinkAt(h.slots, l, i) && LinkAt(h.slots, l, i - 1);
    var h', sh' := Claimed(c, h, x, Some(b)), ClaimedShape(sh, i);
    assert forall y: nat :: y in l ==> OnePlace(sh.place, y, InFree);
    Pigeons(l, |h.slots|);
    WithoutHolds(l, i, sh.place, sh'.place, InFree);
    WithoutLinks(l, i, h.slots, h'.slots);
  }

  lemma ClaimFits(c: Checksum, h: Heap, sh: Shape, i: nat)
    requires Fits(c, h, sh) && 0 < i < |sh.free|
    ensures var x, b := sh.free[i], sh.free[i - 1];
      && x < |h.slots| && b < |h.slots| && x != b && h.slots[b].next == Off(x)
      && Fits(c, Claimed(c, h, x, Some(b)), ClaimedShape(sh, i))
  {
    Open(c, h, sh);
    ClaimList(c, h, sh, i);
    var x, b := sh.free[i], sh.free[i - 1];
    var h', sh' := Claimed(c, h, x, Some(b)), ClaimedShape(sh, i);
    assert SlotOk(c, sh, x, h.slots[x]) && SlotOk(c, sh, b, h.slots[b]);
    assert h'.slots[b] == h.slots[b].(next := h.slots[x].next);
    TwoSlotsSlots(c, h, sh, h', sh', x, b);
    TwoSlotsList(h, sh, h', sh', x, b, h.queueHead, sh.queue, InQueue);
    TwoSlotsList(h, sh, h', sh', x, b, 0, sh.loose, Loose);
    ClaimChains(h, sh, h', sh', x, b);
  }

  lemma ClaimChains(h: Heap, sh: Shape, h': Heap, sh': Shape, x: nat, b: nat)
    requires TwoSlots(h, sh, h', sh', x, b) && ChainsOk(h, sh)
    requires sh.place[x] == InFree && sh.place[b] == InFree && sh'.place[x] == Head && sh'.chains == sh.chains[x := []]
    requires h'.slots[x].next == 0
    ensures ChainsOk(h', sh')
  {
    assert x !in sh.chains && b !in sh.chains;
    NoList(h'.slots, sh'.place, Overflow(x));
    forall y: nat | y in sh'.chains ensures ChainOk(h', sh', y) {
      if y != x {
        assert ChainOk(h, sh, y);
        TwoSlotsList(h, sh, h', sh', x, b, h.slots[y].next, sh.chains[y], Overflow(y));
      }
    }
  }
}
