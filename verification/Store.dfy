/**
 The slot heap of an open database used by one thread outside a transaction, on the memory backend without an
 index: allocation (`src/endfields.c`, `src/ef_grow.c`), the queue (`src/ef_queue.c`) and blobs (`src/ef_blob.c`).
 */
module Store {
  import opened Base
  import opened Rebuild
  import opened Slots
  import opened Heaps
  import opened Contents
  import opened Release
  import opened Blobs

  /** The most slots that a mapping of `capacity` bytes has room for. */
  function Limit(capacity: nat): nat {
    if capacity < ExpectedSize(0) then 0 else (capacity - ExpectedSize(0)) / SLOT_SIZE
  }

  lemma LimitIsExact(capacity: nat, n: nat)
    requires n > 0
    ensures ExpectedSize(n) <= capacity <==> n <= Limit(capacity)
  {
  }

  /** The numbers from `a` up to `b`. */
  function Upto(a: nat, b: nat): (r: seq<nat>)
    ensures |r| == if a <= b then b - a else 0
  {
    if a < b then seq(b - a, i requires 0 <= i < b - a => a + i) else []
  }

  /** The slots that allocations will hand out, in order: those on the free list, then new ones. */
  function Supply(free: seq<nat>, n: nat, limit: nat): seq<nat> {
    free + Upto(n, limit)
  }

  /** A blob can be written to a free slot or to a head. */
  predicate Writable(status: nat) {
    status == FREE || status == USED
  }

  class SlotStore {
    const crc: Checksum
    const mapCapacity: nat
    var slots: seq<Slot>
    var freeListHead: Word
    var freeCount: nat
    var queueHead: Word
    var queueTail: Word
    ghost var shape: Shape

    ghost function View(): Heap
      reads this
    {
      Heap(slots, freeListHead, freeCount, queueHead, queueTail)
    }

    ghost predicate Valid()
      reads this
    {
      && NeverZero(crc) && Limit(mapCapacity) <= MOST_SLOTS && |slots| <= Limit(mapCapacity)
      && Fits(crc, View(), shape)
    }

    ghost function Supplies(): seq<nat>
      reads this
    {
      Supply(shape.free, |slots|, Limit(mapCapacity))
    }

    ghost function Queued(): seq<seq<Byte>>
      reads this
    {
      Messages(slots, shape.queue)
    }

    /** What heads other than `x` store stays as it was. */
    twostate predicate OnlyChanges(x: nat)
      reads this
    {
      OthersKept(old(View()), old(shape), View(), shape, {x})
    }

    /** The same heads, holding what they held. */
    twostate predicate HeadsStay()
      reads this
    {
      shape.chains == old(shape.chains) && OthersKept(old(View()), old(shape), View(), shape, {})
    }

    /** `ef_init_slots` and `ef_build_free_list`. */
    constructor (c: Checksum, capacity: nat, maxSlots: nat)
      requires NeverZero(c) && maxSlots <= Limit(capacity) <= MOST_SLOTS
      ensures Valid() && crc == c && mapCapacity == capacity
      ensures |slots| == maxSlots && shape.free == Upto(0, maxSlots) && shape.queue == [] && shape.chains == map[]
    {
      crc, mapCapacity := c, capacity;
      queueHead, queueTail, freeListHead := 0, 0, 0;
      new;
      var s: seq<Slot> := [];
      var i: nat := 0;
      while i < maxSlots
        invariant |s| == i <= maxSlots
        invariant forall j: nat :: j < i ==>
          s[j] == Slot.Slot(FREE, 0, Zeros(PAYLOAD_SIZE), if j + 1 < maxSlots then Off(j + 1) else 0)
      {
        s := s + [Slot.Slot(FREE, 0, Zeros(PAYLOAD_SIZE), if i + 1 < maxSlots then Off(i + 1) else 0)];
        i := i + 1;
      }
      slots := s;
      freeListHead := if maxSlots == 0 then 0 else Off(0);
      freeCount := maxSlots;
      shape := Shape(seq(maxSlots, _ => InFree), Upto(0, maxSlots), [], map[], []);
      BuiltFits(crc, View(), maxSlots);
    }

    /** How an allocation that hands out slot `x` changes what there is. */
    twostate predicate HandsOut(x: nat)
      reads this
    {
      && x !in old(shape.chains) && shape.chains == old(shape.chains)[x := []] && shape.queue == old(shape.queue)
      && x < |slots| && slots[x].payload == Zeros(PAYLOAD_SIZE)
      && OnlyChanges(x) && Queued() == old(Queued())
    }

    /** `ef_alloc_slot_ex`. */
    method AllocSlot(clear: bool) returns (err: Err, id: nat)
      requires Valid()
      modifies this
      ensures Valid()
      ensures old(shape.free) == [] ==> err == SlotFull && unchanged(this)
      ensures old(shape.free) != [] ==>
        && err == Ok && id == old(shape.free)[0] && id < |old(slots)| && old(shape).place[id] == InFree
        && View() == Taken(crc, old(View()), id, clear) && shape == TakenShape(old(shape)) && HandsOut(id)
    {
      HeadWords(crc, View(), shape);
      if freeListHead == 0 || freeCount == 0 {
        return SlotFull, 0;
      }
      id := TakeFirst(clear);
      return Ok, id;
    }

    /** `ef_free_list_pop_atomic` on a list that is not empty. */
    method TakeFirst(clear: bool) returns (id: nat)
      requires Valid() && shape.free != []
      modifies this
      ensures Valid()
      ensures id == old(shape.free)[0] && id < |old(slots)| && old(shape).place[id] == InFree
      ensures View() == Taken(crc, old(View()), id, clear) && shape == TakenShape(old(shape)) && HandsOut(id)
    {
      TakeFits(crc, View(), shape, clear);
      AllocKeeps(crc, View(), shape, clear);
      OffNames(|slots|, shape.free[0]);
      id := At(|slots|, freeListHead).id;
      shape := TakenShape(shape);
      var s := slots[id];
      freeListHead := s.next;
      s := s.(next := 0, status := USED);
      if clear {
        s := s.(payload := Zeros(PAYLOAD_SIZE));
      }
      freeCount := (freeCount + COUNT_SPAN - 1) % COUNT_SPAN;
      slots := slots[id := Seal(crc, id, s)];
    }

    /** One turn of the loop of `ef_grow_append_slots`. */
    method AddSlot()
      requires Valid() && |slots| < Limit(mapCapacity)
      modifies this
      ensures Valid() && View() == Grown(old(View())) && shape == GrownShape(old(shape))
    {
      GrowFits(crc, View(), shape);
      shape := GrownShape(shape);
      var i := |slots|;
      slots := slots + [Slot.Slot(FREE, 0, Zeros(PAYLOAD_SIZE), freeListHead)];
      freeListHead := Off(i);
      freeCount := (freeCount + 1) % COUNT_SPAN;
    }

    /** `ef_grow` outside a transaction. */
    method Grow(newMax: nat) returns (err: Err)
      requires Valid()
      modifies this
      ensures Valid()
      ensures newMax <= |old(slots)| ==> err == Err.Grow && unchanged(this)
      ensures newMax > |old(slots)| && ExpectedSize(newMax) > mapCapacity ==> err == FileSize && unchanged(this)
      ensures newMax > |old(slots)| && ExpectedSize(newMax) <= mapCapacity ==>
        && err == Ok && |slots| == newMax && shape == GrownBy(old(shape), newMax - |old(slots)|)
        && shape.free == Reverse(Upto(|old(slots)|, newMax)) + old(shape.free)
      ensures OnlyChanges(|old(slots)|) && Queued() == old(Queued())
    {
      var oldMax := |slots|;
      if newMax <= oldMax {
        NothingChanges(View(), shape, {oldMax});
        return Err.Grow;
      }
      if ExpectedSize(newMax) > mapCapacity {
        NothingChanges(View(), shape, {oldMax});
        return FileSize;
      }
      LimitIsExact(mapCapacity, newMax);
      ghost var h, sh := View(), shape;
      NothingChanges(h, sh, {oldMax});
      var i := oldMax;
      while i < newMax
        invariant oldMax <= i <= newMax && |slots| == i && Valid()
        invariant shape == GrownBy(sh, i - oldMax)
        invariant PayloadsKeptBut(h, View(), oldMax)
      {
        AddSlot();
        i := i + 1;
      }
      GrownSame(sh, newMax - oldMax);
      GrownFree(sh, newMax - oldMax);
      KeepAll(crc, h, sh, View(), shape, oldMax);
      return Ok;
    }

    /** The second half of `ef_alloc_ex`, when no slot is free. */
    method AllocGrown(clear: bool) returns (err: Err, id: nat)
      requires Valid() && shape.free == []
      modifies this
      ensures Valid()
      ensures |old(slots)| >= Limit(mapCapacity) ==> err == FileSize && unchanged(this)
      ensures |old(slots)| < Limit(mapCapacity) ==>
        err == Ok && id == |old(slots)| && |slots| == id + 1 && shape.free == [] && HandsOut(id)
    {
      ghost var h, sh := View(), shape;
      LimitIsExact(mapCapacity, |slots| + 1);
      err := Grow(|slots| + 1);
      if err != Ok {
        return err, 0;
      }
      ghost var h1, sh1 := View(), shape;
      assert GrownBy(sh, 0) == sh;
      err, id := AllocSlot(clear);
      AllocAfterGrow(crc, h, sh, h1, sh1, clear);
    }

    /** `ef_alloc_ex`: allocation, which adds a slot when none is free. */
    method AllocEx(clear: bool) returns (err: Err, id: nat)
      requires Valid()
      modifies this
      ensures Valid()
      ensures old(Supplies()) == [] ==> err == FileSize && unchanged(this)
      ensures old(Supplies()) != [] ==>
        && err == Ok && id == old(Supplies())[0] && Supplies() == old(Supplies())[1..] && HandsOut(id)
        && shape.free == if old(shape.free) == [] then [] else old(shape.free)[1..]
    {
      ghost var free, n := shape.free, |slots|;
      err, id := AllocSlot(clear);
      if err != SlotFull {
        SupplyStep(free, n, Limit(mapCapacity));
        return err, id;
      }
      if n < Limit(mapCapacity) {
        SupplyGrows(n, Limit(mapCapacity));
      }
      err, id := AllocGrown(clear);
    }

    /** The loop of `ef_blob_release_chain`, on any heap. */
    method ReleaseFrom(start: Word) returns (err: Err)
      requires |slots| <= MOST_SLOTS
      modifies this
      ensures (View(), err) == Released(old(View()), start) && shape == old(shape)
    {
      var offset := start;
      while offset != 0
        invariant |slots| <= MOST_SLOTS && shape == old(shape)
        invariant Released(View(), offset) == Released(old(View()), start)
        decreases OverflowCount(slots)
      {
        var at := At(|slots|, offset);
        if at.Bad? {
          return at.err;
        }
        NamesOff(|slots|, offset);
        var id := at.id;
        if slots[id].status != OVERFLOW {
          return NotFound;
        }
        GivenCount(View(), id);
        offset := slots[id].next;
        PushFree(id);
      }
      return Ok;
    }

    /** `ef_free_list_push_atomic`; without an index, all of `ef_return_slot_to_pool`. */
    method PushFree(id: nat)
      requires id < |slots| <= MOST_SLOTS
      modifies this
      ensures View() == Given(old(View()), id) && shape == old(shape)
    {
      slots := slots[id := slots[id].(crc := 0, payload := Zeros(PAYLOAD_SIZE), next := freeListHead, status := FREE)];
      freeListHead := Off(id);
      freeCount := (freeCount + 1) % COUNT_SPAN;
    }

    /** `ef_blob_release_chain`, on any heap. */
    method ReleaseChain(head: nat) returns (err: Err)
      requires head < |slots| <= MOST_SLOTS
      modifies this
      ensures (View(), err) == Released(Detached(crc, old(View()), head), old(slots)[head].next) && shape == old(shape)
    {
      var offset := slots[head].next;
      slots := slots[head := Seal(crc, head, slots[head].(next := 0))];
      err := ReleaseFrom(offset);
    }

    /** A head with no chain goes back to the pool. */
    method GiveBack(id: nat)
      requires Valid() && id in shape.chains && shape.chains[id] == []
      modifies this
      ensures Valid() && |slots| == |old(slots)|
      ensures shape.free == [id] + old(shape.free) && shape.queue == old(shape.queue)
      ensures shape.chains == old(shape.chains) - {id} && OnlyChanges(id) && Queued() == old(Queued())
    {
      GiveHead(crc, View(), shape, id);
      GiveKeeps(crc, View(), shape, id);
      PushFree(id);
      shape := shape.(place := shape.place[id := InFree], free := [id] + shape.free, chains := shape.chains - {id});
    }

    /** `ef_blob_release_chain` on a sound heap. */
    method DropChain(id: nat) returns (err: Err)
      requires Valid() && id in shape.chains
      modifies this
      ensures Valid() && err == Ok && shape == ChainFreed(old(shape), id) && |slots| == |old(slots)|
      ensures id < |slots| && slots[id].payload == old(slots)[id].payload
      ensures OnlyChanges(id) && Queued() == old(Queued())
    {
      ReleaseChainFits(crc, View(), shape, id);
      err := ReleaseChain(id);
      shape := ChainFreed(shape, id);
    }

    /** The last part of `ef_free_slot`, for a head. */
    method FreeHead(id: nat) returns (err: Err)
      requires Valid() && id in shape.chains
      modifies this
      ensures Valid() && err == Ok && |slots| == |old(slots)|
      ensures shape.chains == old(shape.chains) - {id} && shape.queue == old(shape.queue)
      ensures shape.free == [id] + Reverse(old(shape.chains)[id]) + old(shape.free)
      ensures OnlyChanges(id) && Queued() == old(Queued())
    {
      ghost var h, sh := View(), shape;
      err := DropChain(id);
      ghost var h1, sh1 := View(), shape;
      GiveBack(id);
      KeptTwice(h, sh, h1, sh1, View(), shape, id);
    }

    /** `ef_free_slot` outside a transaction. Freeing an overflow slot by itself is carried out, but see below. */
    method FreeSlot(id: nat) returns (err: Err)
      requires Valid()
      modifies this
      ensures id >= |old(slots)| ==> err == SlotId && unchanged(this)
      ensures id < |old(slots)| && old(slots)[id].status == FREE ==> err == SlotFree && unchanged(this)
      ensures id < |old(slots)| && UsesLinkCrc(old(slots)[id].status) ==> err == SlotBusy && unchanged(this)
      ensures id < |old(slots)| && old(slots)[id].status == OVERFLOW ==> err == Ok && View() == Given(old(View()), id)
      ensures id < |old(slots)| && old(slots)[id].status == USED ==>
        && err == Ok && Valid() && |slots| == |old(slots)|
        && id in old(shape.chains) && shape.chains == old(shape.chains) - {id}
        && shape.free == [id] + Reverse(old(shape.chains)[id]) + old(shape.free)
        && OnlyChanges(id) && Queued() == old(Queued())
    {
      if id >= |slots| {
        return SlotId;
      }
      var status := slots[id].status;
      if status == FREE {
        return SlotFree;
      }
      if status == QUEUED {
        return SlotBusy;
      }
      if status == QUEUE_DUMMY || status == QUEUE_LINK || status == QUEUE_DEQ {
        return SlotBusy;
      }
      StatusTells(crc, View(), shape, id);
      if status == USED || status == OVERFLOW {
        if !CrcValid(crc, id, slots[id]) {
          return BadChecksum;
        }
      }
      if status == USED {
        err := FreeHead(id);
        return err;
      }
      PushFree(id);
      return Ok;
    }

    /** `ef_queue_dummy_offset`; with one thread its compare-and-swap succeeds. */
    method EnsureDummy() returns (err: Err)
      requires Valid()
      modifies this
      ensures Valid() && |slots| == |old(slots)|
      ensures old(shape.queue) != [] ==> err == Ok && unchanged(this)
      ensures old(shape.queue) == [] && old(shape.free) == [] ==> err == SlotFull && unchanged(this)
      ensures old(shape.queue) == [] && old(shape.free) != [] ==>
        && err == Ok && shape.queue == [old(shape.free)[0]] && shape.free == old(shape.free)[1..]
      ensures HeadsStay() && Queued() == old(Queued())
    {
      ghost var h, sh := View(), shape;
      NothingChanges(h, sh, {});
      HeadWords(crc, h, sh);
      if queueHead != 0 {
        DummyFirst(crc, h, sh);
        if slots[At(|slots|, queueHead).id].status == QUEUE_DUMMY {
          return Ok;
        }
      }
      var d: nat;
      err, d := AllocSlot(true);
      if err != Ok {
        return err;
      }
      ghost var h1, sh1 := View(), shape;
      DummyFits(crc, h1, sh1, d);
      slots := slots[d := Seal(crc, d, slots[d].(status := QUEUE_DUMMY, next := 0, payload := Zeros(PAYLOAD_SIZE)))];
      queueHead := Off(d);
      queueTail := Off(d);
      shape := DummiedShape(sh1, d);
      DummyKeeps(crc, h1, sh1, d);
      KeptBack(h, sh, h1, sh1, View(), shape, d);
    }

    /** `ef_queue_pop` into a buffer of `cap` bytes. */
    method QueuePop(cap: nat) returns (err: Err, out: seq<Byte>)
      requires Valid()
      modifies this
      ensures Valid()
      ensures old(Queued()) == [] ==> err == QueueEmpty && unchanged(this)
      ensures old(Queued()) != [] && |old(Queued())[0]| + 1 > cap ==> err == PayloadLen && unchanged(this)
      ensures old(Queued()) != [] && |old(Queued())[0]| + 1 <= cap ==>
        && err == Ok && out == old(Queued())[0] && Queued() == old(Queued())[1..]
        && |old(shape.queue)| >= 2 && shape.free == [old(shape.queue)[1]] + old(shape.free)
        && |slots| == |old(slots)| && HeadsStay()
    {
      ghost var h, sh := View(), shape;
      HeadWords(crc, h, sh);
      if queueHead == 0 {
        return QueueEmpty, [];
      }
      DummyFirst(crc, h, sh);
      var d := At(|slots|, queueHead).id;
      var firstOff := slots[d].next;
      if firstOff == 0 {
        return QueueEmpty, [];
      }
      FirstMessage(crc, h, sh);
      var f := At(|slots|, firstOff).id;
      var len := slots[f].payload[0];
      if len + 1 > cap {
        return PayloadLen, [];
      }
      out := slots[f].payload[1..1 + len];
      var next := slots[f].next;
      slots := slots[d := Seal(crc, d, slots[d].(next := next))];
      if queueTail == firstOff {
        queueTail := if next != 0 then next else queueHead;
      }
      PushFree(f);
      shape := DequeuedShape(sh);
      PopKeeps(h, sh, View(), shape, f);
      err := Ok;
    }

    /** The second half of `ef_queue_enqueue_mpmc`: slot `id`, which the caller holds, is linked after the tail. */
    method LinkAtTail(id: nat)
      requires Valid() && shape.queue != [] && id in shape.chains && shape.chains[id] == []
      requires id < |slots| && |slots[id].payload| == PAYLOAD_SIZE && slots[id].payload[0] < PAYLOAD_SIZE
      modifies this
      ensures Valid() && |slots| == |old(slots)| && shape.free == old(shape.free)
      ensures Queued() == old(Queued()) + [Message(old(slots)[id].payload)]
      ensures shape.chains == old(shape.chains) - {id} && OnlyChanges(id)
    {
      ghost var h, sh := View(), shape;
      ghost var last := sh.queue[|sh.queue| - 1];
      EnqueueFits(crc, h, sh, id);
      EnqueueMessages(crc, h, sh, id);
      OffNames(|slots|, last);
      slots := slots[id := Seal(crc, id, slots[id].(next := 0, status := QUEUED))];
      var tail := At(|slots|, queueTail).id;
      slots := slots[tail := Seal(crc, tail, slots[tail].(next := Off(id)))];
      queueTail := Off(id);
      shape := EnqueuedShape(sh, id);
      assert View() == Enqueued(crc, h, last, id);
    }

    /** `ef_queue_enqueue_mpmc`. */
    method Enqueue(id: nat) returns (err: Err)
      requires Valid() && id in shape.chains && shape.chains[id] == []
      requires id < |slots| && |slots[id].payload| == PAYLOAD_SIZE && slots[id].payload[0] < PAYLOAD_SIZE
      modifies this
      ensures Valid() && |slots| == |old(slots)|
      ensures old(shape.queue) == [] && old(shape.free) == [] ==> err == SlotFull && unchanged(this)
      ensures old(shape.queue) != [] || old(shape.free) != [] ==>
        && err == Ok && Queued() == old(Queued()) + [Message(old(slots)[id].payload)]
        && shape.chains == old(shape.chains) - {id} && OnlyChanges(id)
        && shape.free == if old(shape.queue) != [] then old(shape.free) else old(shape.free)[1..]
    {
      ghost var h, sh := View(), shape;
      err := EnsureDummy();
      if err != Ok {
        return err;
      }
      ghost var h1, sh1 := View(), shape;
      SamePayload(h, sh, h1, sh1, id);
      LinkAtTail(id);
      KeptTrans(h, sh, h1, sh1, View(), shape, {}, {id});
      assert {} + {id} == {id};
    }

    /** Bytes are written over the first of the payload of a head, and its checksum is renewed. */
    method WriteHead(id: nat, bytes: seq<Byte>)
      requires Valid() && id in shape.chains && |bytes| <= PAYLOAD_SIZE
      requires id < |slots| && |slots[id].payload| == PAYLOAD_SIZE
      modifies this
      ensures Valid() && shape == old(shape) && |slots| == |old(slots)|
      ensures slots[id].payload == Overwrite(old(slots)[id].payload, 0, bytes)
      ensures OnlyChanges(id) && Queued() == old(Queued())
    {
      ghost var h, sh := View(), shape;
      var payload := Overwrite(slots[id].payload, 0, bytes);
      WriteFits(crc, h, sh, id, payload);
      WriteKeeps(crc, h, sh, id, payload);
      slots := slots[id := Seal(crc, id, slots[id].(payload := payload))];
    }

    /** The end of `ef_queue_push`: a slot that cannot be queued goes back. */
    method EnqueueOrGiveBack(id: nat) returns (err: Err)
      requires Valid() && id in shape.chains && shape.chains[id] == []
      requires id < |slots| && |slots[id].payload| == PAYLOAD_SIZE && slots[id].payload[0] < PAYLOAD_SIZE
      modifies this
      ensures Valid() && |slots| == |old(slots)|
      ensures shape.chains == old(shape.chains) - {id} && OnlyChanges(id)
      ensures if old(shape.queue) == [] && old(shape.free) == [] then
                err == SlotFull && Queued() == old(Queued()) && shape.free == [id]
              else
                && err == Ok && Queued() == old(Queued()) + [Message(old(slots)[id].payload)]
                && shape.free == if old(shape.queue) != [] then old(shape.free) else old(shape.free)[1..]
    {
      err := Enqueue(id);
      if err != Ok {
        GiveBack(id);
      }
    }

    /** `ef_queue_push`. The checksum of the new slot is renewed earlier than in the code, where nothing looks at it. */
    method QueuePush(data: seq<Byte>) returns (err: Err)
      requires Valid() && |data| < 256
      modifies this
      ensures Valid()
      ensures |data| + 1 > PAYLOAD_SIZE ==> err == PayloadLen && unchanged(this)
      ensures |data| + 1 <= PAYLOAD_SIZE && old(Supplies()) == [] ==> err == FileSize && unchanged(this)
      ensures |data| + 1 <= PAYLOAD_SIZE && old(Supplies()) != [] ==>
        && HeadsStay()
        && if old(shape.queue) == [] && |old(shape.free)| < 2 then
             err == SlotFull && Queued() == old(Queued()) && Supplies() == old(Supplies())
           else
             && err == Ok && Queued() == old(Queued()) + [data]
             && Supplies() == old(Supplies())[if old(shape.queue) == [] then 2 else 1..]
    {
      if |data| + 1 > PAYLOAD_SIZE {
        return PayloadLen;
      }
      ghost var h, sh, supply := View(), shape, Supplies();
      var id: nat;
      err, id := AllocEx(false);
      if err != Ok {
        return err;
      }
      ghost var h1, sh1 := View(), shape;
      MessageFits(slots[id].payload, data);
      WriteHead(id, [|data|] + data);
      KeptTwice(h, sh, h1, sh1, View(), shape, id);
      ghost var h2, sh2 := View(), shape;
      err := EnqueueOrGiveBack(id);
      KeptBack(h, sh, h2, sh2, View(), shape, id);
      TwoTaken(supply, sh2.free, |slots|, Limit(mapCapacity));
    }

    /** The search of `ef_unlink_free_slot`: the slot whose link names `id`, which is free but not the first. */
    method FindBefore(id: nat) returns (before: nat, ghost at: nat)
      requires Valid() && id in shape.free && shape.free[0] != id
      ensures 0 < at < |shape.free| && shape.free[at] == id && before == shape.free[at - 1] && before < |slots|
    {
      ghost var free := shape.free;
      HeadWords(crc, View(), shape);
      FreeLinks(crc, View(), shape, 0);
      before := At(|slots|, freeListHead).id;
      var guard: nat := 0;
      at := 1;
      while guard < |slots| + 1
        invariant guard == at - 1 && 0 < at <= |free| && before == free[at - 1] && before < |slots|
        invariant id !in free[..at] && |free| <= |slots|
        invariant slots[before].next == NextOff(free, at - 1)
        decreases |slots| + 1 - guard
      {
        StillAhead(free, at, id);
        FreeLinks(crc, View(), shape, at);
        guard := guard + 1;
        OffsDiffer(id, free[at]);
        if slots[before].next == Off(id) {
          return;
        }
        before := At(|slots|, slots[before].next).id;
        at := at + 1;
      }
    }

    /** `ef_claim_slot` for a free slot that is not the first on the list. */
    method ClaimLater(id: nat) returns (ghost at: nat)
      requires Valid() && id in shape.free && shape.free[0] != id && id < |slots|
      modifies this
      ensures Valid() && |slots| == |old(slots)|
      ensures at < |old(shape).free| && old(shape).free[at] == id && shape.free == Without(old(shape).free, at)
      ensures HandsOut(id)
    {
      ghost var h, sh := View(), shape;
      HeadWords(crc, h, sh);
      var before: nat;
      before, at := FindBefore(id);
      ClaimFits(crc, h, sh, at);
      ClaimKeeps(crc, h, sh, at);
      slots := slots[before := slots[before].(next := slots[id].next)];
      slots := slots[id := Seal(crc, id, slots[id].(next := 0, status := USED))];
      if freeCount > 0 {
        freeCount := (freeCount + COUNT_SPAN - 1) % COUNT_SPAN;
      }
      shape := ClaimedShape(sh, at);
      assert View() == Claimed(crc, h, id, Some(before));
    }

    /** `ef_claim_slot` for a free slot: it leaves the free list wherever it is. */
    method Claim(id: nat) returns (ghost at: nat)
      requires Valid() && id < |slots| && slots[id].status == FREE
      modifies this
      ensures Valid() && |slots| == |old(slots)|
      ensures at < |old(shape).free| && old(shape).free[at] == id && shape.free == Without(old(shape).free, at)
      ensures HandsOut(id)
    {
      ghost var h, sh := View(), shape;
      FreeIsListed(crc, h, sh, id);
      HeadWords(crc, h, sh);
      OffsDiffer(id, sh.free[0]);
      at := 0;
      if freeListHead == Off(id) {
        TakeFits(crc, h, sh, false);
        AllocKeeps(crc, h, sh, false);
        freeListHead := slots[id].next;
        slots := slots[id := Seal(crc, id, slots[id].(next := 0, status := USED))];
        if freeCount > 0 {
          freeCount := (freeCount + COUNT_SPAN - 1) % COUNT_SPAN;
        }
        shape := TakenShape(sh);
        assert View() == Taken(crc, h, id, false);
      } else {
        at := ClaimLater(id);
      }
    }

    /** Everything stored under head `x`. */
    ghost function Holding(x: nat): seq<Byte>
      reads this
      requires x in shape.chains
    {
      Stored(View(), shape, x)
    }

    /** One turn of the loop of `ef_write_blob`: a new overflow slot with `bytes`, linked after the last. */
    method AppendChunk(id: nat, tail: nat, bytes: seq<Byte>) returns (err: Err, v: nat)
      requires Valid() && id in shape.chains && tail == Last(id, shape.chains[id]) && |bytes| <= PAYLOAD_SIZE
      modifies this
      ensures Valid()
      ensures old(Supplies()) == [] ==> err == FileSize && unchanged(this)
      ensures old(Supplies()) != [] ==>
        && err == Ok && v == old(Supplies())[0] && Supplies() == old(Supplies())[1..]
        && shape.chains == old(shape.chains)[id := old(shape.chains)[id] + [v]]
        && Holding(id) == old(Holding(id)) + (bytes + Zeros(PAYLOAD_SIZE - |bytes|))
        && OnlyChanges(id) && Queued() == old(Queued())
    {
      ghost var h, sh := View(), shape;
      err, v := AllocEx(true);
      if err != Ok {
        return err, v;
      }
      ghost var h1, sh1 := View(), shape;
      var payload := bytes + Zeros(PAYLOAD_SIZE - |bytes|);
      AttachFits(crc, h1, sh1, id, v, payload);
      AttachKeeps(crc, h, sh, h1, sh1, id, v, payload);
      var s := Seal(crc, v, slots[v].(status := OVERFLOW));
      slots := slots[v := s.(payload := payload)];
      slots := slots[tail := Seal(crc, tail, slots[tail].(next := Off(v)))];
      slots := slots[v := Seal(crc, v, slots[v])];
      shape := AttachedShape(sh1, id, v);
      assert View() == Attached(crc, h1, tail, v, payload);
    }

    /** The old chain goes, and the header and the first bytes are written. */
    method StartBlob(id: nat, header: seq<Byte>, data: seq<Byte>) returns (copied: nat)
      requires Valid() && id in shape.chains && |header| == HEADER_SIZE
      modifies this
      ensures Valid() && shape.chains == old(shape.chains)[id := []] && OnlyChanges(id) && Queued() == old(Queued())
      ensures Supplies() == Reverse(old(shape.chains)[id]) + old(Supplies())
      ensures copied == InlinePart(|data|)
      ensures Progress(Holding(id), header, data, copied) && |Holding(id)| == PAYLOAD_SIZE
      ensures id < |old(slots)| && |old(slots)[id].payload| == PAYLOAD_SIZE
      ensures Holding(id)[HEADER_SIZE + copied..] == old(slots)[id].payload[HEADER_SIZE + copied..]
    {
      ghost var h, sh := View(), shape;
      HeadSize(crc, h, sh, id);
      var err := DropChain(id);
      ghost var h1, sh1 := View(), shape;
      assert Supplies() == Reverse(sh.chains[id]) + Supply(sh.free, |h.slots|, Limit(mapCapacity));
      HeadSize(crc, h1, sh1, id);
      copied := InlinePart(|data|);
      WriteHead(id, header + data[..copied]);
      KeptTwice(h, sh, h1, sh1, View(), shape, id);
      assert Holding(id) == slots[id].payload;
      OverwrittenRest(h1.slots[id].payload, header + data[..copied]);
    }

    /** One turn of the loop of `ef_write_blob`, from `copied` bytes to `upto`. */
    method FillOne(id: nat, tail: nat, data: seq<Byte>, copied: nat, ghost p: Plan, ghost k: nat)
      returns (err: Err, v: nat, upto: nat, ghost k': nat)
      requires Valid() && id == p.id && data == p.data && copied < |data|
        && Underway(p, View(), shape, Supplies(), copied, k, tail)
      modifies this
      ensures Valid() && copied < upto <= |data|
      ensures err == Ok ==> Underway(p, View(), shape, Supplies(), upto, k', v)
      ensures err != Ok ==> err == FileSize && |p.supply| < Overflows(|p.data|) && Supplies() == []
      ensures err != Ok ==> Stopped(p, View(), shape)
    {
      ghost var h, sh, left := View(), shape, Supplies();
      FillTail(p, h, sh, left, copied, k, tail);
      upto := copied + ChunkSize(|data| - copied);
      k' := k + 1;
      var bytes := data[copied..upto];
      err, v := AppendChunk(id, tail, bytes);
      if err != Ok {
        FillStops(p, h, sh, left, copied, k, tail);
        return;
      }
      FillMoves(p, h, sh, left, copied, k, tail, View(), shape, Supplies(), upto, k', v, bytes);
    }

    /** The loop of `ef_write_blob`, for the bytes that do not fit in the head. */
    method FillChain(id: nat, data: seq<Byte>, ghost p: Plan) returns (err: Err, ghost k: nat, ghost last: nat)
      requires Valid() && id == p.id && data == p.data
      requires Underway(p, View(), shape, Supplies(), InlinePart(|data|), 0, id)
      modifies this
      ensures Valid()
      ensures err == Ok ==> Underway(p, View(), shape, Supplies(), |data|, k, last)
      ensures err != Ok ==>
        err == FileSize && |p.supply| < Overflows(|data|) && Supplies() == [] && Stopped(p, View(), shape)
    {
      var copied := InlinePart(|data|);
      var tail := id;
      k := 0;
      while copied < |data|
        invariant Valid() && copied <= |data|
        invariant Underway(p, View(), shape, Supplies(), copied, k, tail)
      {
        err, tail, copied, k := FillOne(id, tail, data, copied, p, k);
        if err != Ok {
          return err, 0, 0;
        }
      }
      err, last := Ok, tail;
    }

    /** The part of `ef_write_blob` that follows its checks, for head `id`. */
    method WriteToHead(id: nat, data: seq<Byte>) returns (err: Err)
      requires Valid() && id in shape.chains && |data| < 0x1_0000_0000
      modifies this
      ensures Valid() && shape.chains.Keys == old(shape.chains.Keys) && OnlyChanges(id) && Queued() == old(Queued())
      ensures err == Ok <==> Overflows(|data|) <= |Reverse(old(shape.chains)[id]) + old(Supplies())|
      ensures var supply := Reverse(old(shape.chains)[id]) + old(Supplies());
        if err == Ok then
          && shape.chains[id] == supply[..Overflows(|data|)] && Supplies() == supply[Overflows(|data|)..]
          && IsBlob(Holding(id), data)
          && id < |old(slots)| && Remains(old(slots)[id].payload, Holding(id), |data|)
        else
          && err == FileSize && shape.chains[id] == [] && Supplies() == Reverse(supply)
          && Holding(id) == Zeros(PAYLOAD_SIZE)
    {
      ghost var h, sh := View(), shape;
      var header := BlobHeader(|data|);
      var copied := StartBlob(id, header, data);
      ghost var p := Plan(View(), shape, Supplies(), id, header, data, h.slots[id].payload);
      FillStarts(p);
      ghost var k, last;
      err, k, last := FillChain(id, data, p);
      ghost var h2, sh2 := View(), shape;
      if err != Ok {
        KeptTwice(h, sh, p.h, p.sh, h2, sh2, id);
        GiveUp(id);
        KeptTwice(h, sh, h2, sh2, View(), shape, id);
      } else {
        BlobDone(p, h, sh, h2, sh2, Supplies(), k, last);
      }
    }

    /** How `ef_write_blob` gives up: the chain goes back, and the head no longer reads as a blob. */
    method GiveUp(id: nat)
      requires Valid() && id in shape.chains && Supplies() == []
      modifies this
      ensures Valid() && shape.chains == old(shape.chains)[id := []] && OnlyChanges(id) && Queued() == old(Queued())
      ensures Supplies() == Reverse(old(shape.chains)[id]) && Holding(id) == Zeros(PAYLOAD_SIZE)
    {
      ghost var h, sh := View(), shape;
      var err := DropChain(id);
      ghost var h1, sh1 := View(), shape;
      HeadSize(crc, h1, sh1, id);
      WriteHead(id, Zeros(PAYLOAD_SIZE));
      KeptTwice(h, sh, h1, sh1, View(), shape, id);
    }

    /** `ef_write_blob` outside a transaction. */
    method WriteBlob(id: nat, data: seq<Byte>) returns (err: Err, ghost supply: seq<nat>)
      requires Valid()
      modifies this
      ensures Valid() && Queued() == old(Queued())
      ensures |data| > 0xFFFF_FFFF ==> err == PayloadLen && unchanged(this)
      ensures |data| <= 0xFFFF_FFFF && id >= |old(slots)| ==> err == SlotId && unchanged(this)
      ensures |data| <= 0xFFFF_FFFF && id < |old(slots)| && !Writable(old(slots)[id].status) ==>
        err == SlotBusy && unchanged(this)
      ensures |data| <= 0xFFFF_FFFF && id < |old(slots)| && Writable(old(slots)[id].status) ==>
        && old(Reusable(id, supply)) && id in shape.chains && OnlyChanges(id)
        && (err == Ok <==> Overflows(|data|) <= |supply|)
        && (err == Ok ==>
              && shape.chains[id] == supply[..Overflows(|data|)] && Supplies() == supply[Overflows(|data|)..]
              && IsBlob(Holding(id), data) && Remains(old(slots)[id].payload, Holding(id), |data|))
        && (err != Ok ==>
              && err == FileSize && shape.chains[id] == [] && Supplies() == Reverse(supply)
              && Holding(id) == Zeros(PAYLOAD_SIZE))
    {
      supply := [];
      if |data| > 0xFFFF_FFFF {
        return PayloadLen, supply;
      }
      if id >= |slots| {
        return SlotId, supply;
      }
      StatusTells(crc, View(), shape, id);
      if !CrcValid(crc, id, slots[id]) {
        return BadChecksum, supply;
      }
      if slots[id].status != FREE && slots[id].status != USED {
        return SlotBusy, supply;
      }
      if slots[id].status == FREE {
        err, supply := WriteToFree(id, data);
      } else {
        supply := Reverse(shape.chains[id]) + Supplies();
        err := WriteToHead(id, data);
      }
    }

    /** The same, for a free slot, which is claimed first. */
    method WriteToFree(id: nat, data: seq<Byte>) returns (err: Err, ghost supply: seq<nat>)
      requires Valid() && id < |slots| && slots[id].status == FREE && |data| < 0x1_0000_0000
      modifies this
      ensures Valid() && id in shape.chains && OnlyChanges(id) && Queued() == old(Queued())
      ensures id !in old(shape).chains && old(Reusable(id, supply))
      ensures err == Ok <==> Overflows(|data|) <= |supply|
      ensures if err == Ok then
          && shape.chains[id] == supply[..Overflows(|data|)] && Supplies() == supply[Overflows(|data|)..]
          && IsBlob(Holding(id), data) && Remains(old(slots)[id].payload, Holding(id), |data|)
        else
          && err == FileSize && shape.chains[id] == [] && Supplies() == Reverse(supply)
          && Holding(id) == Zeros(PAYLOAD_SIZE)
    {
      ghost var h, sh := View(), shape;
      FreeIsListed(crc, h, sh, id);
      ghost var at := Claim(id);
      supply := Supplies();
      ghost var h1, sh1 := View(), shape;
      err := WriteToHead(id, data);
      KeptTwice(h, sh, h1, sh1, View(), shape, id);
      assert Reverse([]) + supply == supply;
    }

    /**
     The slots that a write to `id` can use, in order: its old chain, last slot first, and the supply; or the supply
     without `id`, when `id` is free.
     */
    ghost predicate Reusable(id: nat, supply: seq<nat>)
      reads this
    {
      if id in shape.chains then supply == Reverse(shape.chains[id]) + Supplies()
      else
        && id in shape.free
        && exists at: nat :: at < |shape.free| && shape.free[at] == id
             && supply == Supply(Without(shape.free, at), |slots|, Limit(mapCapacity))
    }

    /** `ef_read_blob` into a buffer of `cap` bytes: the length of the blob, and what is copied. */
    method ReadBlob(id: nat, cap: nat) returns (err: Err, len: nat, out: seq<Byte>)
      requires Valid()
      ensures id >= |slots| ==> err == SlotId
      ensures id < |slots| && slots[id].status != USED ==> err == SlotFree
      ensures id < |slots| && slots[id].status == USED ==>
        && id in shape.chains && |Holding(id)| >= HEADER_SIZE
        && if !HasMagic(Holding(id)) then err == NotFound
           else err == Ok && len == LengthField(Holding(id)) && out == Copied(Holding(id), cap)
    {
      len, out := 0, [];
      if id >= |slots| {
        return SlotId, len, out;
      }
      StatusTells(crc, View(), shape, id);
      if !CrcValid(crc, id, slots[id]) {
        return BadChecksum, len, out;
      }
      if slots[id].status != USED {
        return SlotFree, len, out;
      }
      ghost var chain, held := shape.chains[id], Holding(id);
      HeldInHead(crc, View(), shape, id);
      if !HasMagic(slots[id].payload) {
        return NotFound, len, out;
      }
      len := LengthField(slots[id].payload);
      if cap == 0 {
        return Ok, len, out;
      }
      var n := InlinePart(len);
      n := if n < cap then n else cap;
      out := slots[id].payload[HEADER_SIZE..HEADER_SIZE + n];
      var offset := slots[id].next;
      ghost var k: nat := 0;
      ReadStarts(held, chain, len, cap, out);
      while |out| < len && |out| < cap && offset != 0
        invariant k <= |chain| && offset == FirstOff(chain[k..]) && Reading(held, |chain|, len, cap, out, k)
        decreases |chain| - k
      {
        HeldInChain(crc, View(), shape, id, k);
        var v := At(|slots|, offset).id;
        assert CrcValid(crc, v, slots[v]) && slots[v].status == OVERFLOW;
        n := ChunkSize(len - |out|);
        n := if n < cap - |out| then n else cap - |out|;
        ReadStep(held, |chain|, len, cap, out, k, slots[v].payload, n);
        out := out + slots[v].payload[..n];
        offset := slots[v].next;
        k := k + 1;
      }
      ReadEnds(held, |chain|, len, cap, out, k);
      err := Ok;
    }
  }

  /** A list of all slots in order. */
  lemma BuiltFits(c: Checksum, h: Heap, n: nat)
    requires |h.slots| == n <= MOST_SLOTS && h.freeCount == n && h.queueHead == 0 && h.queueTail == 0
    requires h.freeHead == if n == 0 then 0 else Off(0)
    requires forall j: nat :: j < n ==>
      h.slots[j] == Slot.Slot(FREE, 0, Zeros(PAYLOAD_SIZE), if j + 1 < n then Off(j + 1) else 0)
    ensures Fits(c, h, Shape(seq(n, _ => InFree), Upto(0, n), [], map[], []))
  {
    var sh := Shape(seq(n, _ => InFree), Upto(0, n), [], map[], []);
    forall i: nat | i < n ensures LinkAt(h.slots, sh.free, i) {
    }
    forall x: nat ensures x in sh.free <==> OnePlace(sh.place, x, InFree) {
      if x < n {
        assert sh.free[x] == x;
      }
    }
    forall x: nat | x < n ensures SlotOk(c, sh, x, h.slots[x]) {
    }
  }

  /** The shape after `k` new slots have been put on the free list one by one. */
  ghost function GrownBy(sh: Shape, k: nat): Shape {
    if k == 0 then sh else GrownShape(GrownBy(sh, k - 1))
  }

  lemma {:induction false} GrownSame(sh: Shape, k: nat)
    ensures GrownBy(sh, k).queue == sh.queue && GrownBy(sh, k).chains == sh.chains
  {
    if k > 0 {
      GrownSame(sh, k - 1);
    }
  }

  lemma {:induction false} ReverseSnoc(l: seq<nat>, x: nat)
    ensures Reverse(l + [x]) == [x] + Reverse(l)
    decreases |l|
  {
    if l == [] {
      assert Reverse([x]) == Reverse([x][1..]) + [x];
    } else {
      assert (l + [x])[1..] == l[1..] + [x];
      ReverseSnoc(l[1..], x);
    }
  }

  /** The new slots are in front of the list, the last one first. */
  lemma {:induction false} GrownFree(sh: Shape, k: nat)
    ensures var n := |sh.place|;
      |GrownBy(sh, k).place| == n + k && GrownBy(sh, k).free == Reverse(Upto(n, n + k)) + sh.free
  {
    var n := |sh.place|;
    if k > 0 {
      GrownFree(sh, k - 1);
      assert Upto(n, n + k) == Upto(n, n + k - 1) + [n + k - 1];
      ReverseSnoc(Upto(n, n + k - 1), n + k - 1);
    }
  }

  lemma NothingChanges(h: Heap, sh: Shape, a: set<nat>)
    ensures OthersKept(h, sh, h, sh, a)
  {
  }

  lemma AllocKeeps(c: Checksum, h: Heap, sh: Shape, clear: bool)
    requires Fits(c, h, sh) && sh.free != []
    ensures var x := sh.free[0];
      && x < |h.slots| && x < |sh.place| && x !in sh.chains
      && var h', sh' := Taken(c, h, x, clear), TakenShape(sh);
         OthersKept(h, sh, h', sh', {x}) && MessagesKept(h, sh, h', sh') && h'.slots[x].payload == Zeros(PAYLOAD_SIZE)
  {
    Open(c, h, sh);
    var x := sh.free[0];
    assert x in sh.free && OnePlace(sh.place, x, InFree);
    assert SlotOk(c, sh, x, h.slots[x]);
    KeepAll(c, h, sh, Taken(c, h, x, clear), TakenShape(sh), x);
  }

  lemma SupplyStep(free: seq<nat>, n: nat, limit: nat)
    requires free != []
    ensures Supply(free, n, limit) != [] && Supply(free, n, limit)[0] == free[0]
    ensures Supply(free, n, limit)[1..] == Supply(free[1..], n, limit)
  {
  }

  lemma SupplyGrows(n: nat, limit: nat)
    requires n < limit
    ensures Upto(n, limit) == [n] + Upto(n + 1, limit)
  {
  }

  lemma AllocAfterGrow(c: Checksum, h: Heap, sh: Shape, h1: Heap, sh1: Shape, clear: bool)
    requires Fits(c, h, sh) && sh.free == [] && Fits(c, h1, sh1) && sh1 == GrownShape(sh)
    requires OthersKept(h, sh, h1, sh1, {|h.slots|}) && MessagesKept(h, sh, h1, sh1)
    ensures var x := |h.slots|;
      && x < |h1.slots| && x !in sh.chains && x == sh1.free[0]
      && var h2, sh2 := Taken(c, h1, x, clear), TakenShape(sh1);
         && sh2.chains == sh.chains[x := []] && sh2.queue == sh.queue && sh2.free == []
         && OthersKept(h, sh, h2, sh2, {x}) && MessagesKept(h, sh, h2, sh2)
           && h2.slots[x].payload == Zeros(PAYLOAD_SIZE)
  {
    Open(c, h, sh);
    AllocKeeps(c, h1, sh1, clear);
    var x := |h.slots|;
    KeptTwice(h, sh, h1, sh1, Taken(c, h1, x, clear), TakenShape(sh1), x);
  }

  lemma GiveKeeps(c: Checksum, h: Heap, sh: Shape, x: nat)
    requires Fits(c, h, sh) && x in sh.chains
    ensures x < |h.slots|
    ensures var h', sh' := Given(h, x), sh.(place := sh.place[x := InFree], free := [x] + sh.free,
        chains := sh.chains - {x});
      OthersKept(h, sh, h', sh', {x}) && MessagesKept(h, sh, h', sh')
  {
    Open(c, h, sh);
    assert OnePlace(sh.place, x, Head);
    KeepAll(c, h, sh, Given(h, x), sh.(place := sh.place[x := InFree], free := [x] + sh.free,
        chains := sh.chains - {x}), x);
  }

  /** The status of a slot tells its place, and its checksum is good. */
  lemma StatusTells(c: Checksum, h: Heap, sh: Shape, x: nat)
    requires NeverZero(c) && Fits(c, h, sh) && x < |h.slots|
    ensures CrcValid(c, x, h.slots[x])
    ensures h.slots[x].status == USED <==> x in sh.chains
    ensures var s := h.slots[x].status; s == FREE || s == USED || s == OVERFLOW || s == QUEUED || s == QUEUE_DUMMY
  {
    Open(c, h, sh);
    assert SlotOk(c, sh, x, h.slots[x]);
    NoneLoose(c, h, sh, x);
    SealedIsValid(c, x, h.slots[x]);
    assert x in sh.chains <==> OnePlace(sh.place, x, Head);
  }

  /** The head of a queue that exists names its dummy. */
  lemma DummyFirst(c: Checksum, h: Heap, sh: Shape)
    requires Fits(c, h, sh) && h.queueHead != 0
    ensures sh.queue != [] && sh.queue[0] < |h.slots| && h.queueHead == Off(sh.queue[0])
    ensures At(|h.slots|, h.queueHead) == SlotRef.Slot(sh.queue[0]) && h.slots[sh.queue[0]].status == QUEUE_DUMMY
    ensures h.slots[sh.queue[0]].next == NextOff(sh.queue, 0)
  {
    Open(c, h, sh);
    var d := sh.queue[0];
    assert d in sh.queue && OnePlace(sh.place, d, InQueue) && LinkAt(h.slots, sh.queue, 0);
    assert SlotOk(c, sh, d, h.slots[d]);
    OffNames(|h.slots|, d);
  }

  /** The first message is in the slot after the dummy, and can leave it. */
  lemma FirstMessage(c: Checksum, h: Heap, sh: Shape)
    requires Fits(c, h, sh) && |sh.queue| >= 2
    ensures var d, f := sh.queue[0], sh.queue[1];
      && d < |h.slots| && f < |h.slots| && d != f && At(|h.slots|, Off(f)) == SlotRef.Slot(f)
      && h.slots[f].status == QUEUED && |h.slots[f].payload| == PAYLOAD_SIZE && h.slots[f].payload[0] < PAYLOAD_SIZE
      && Messages(h.slots, sh.queue) != []
      && Messages(h.slots, sh.queue)[0] == h.slots[f].payload[1..1 + h.slots[f].payload[0]]
      && var h', sh' := Dequeued(c, h, d, f), DequeuedShape(sh);
         && Fits(c, h', sh') && Messages(h'.slots, sh'.queue) == Messages(h.slots, sh.queue)[1..]
         && f !in sh.chains && OthersKept(h, sh, h', sh', {f})
  {
    Open(c, h, sh);
    DequeueFits(c, h, sh);
    DequeueMessages(c, h, sh);
    OffNames(|h.slots|, sh.queue[1]);
    assert SlotOk(c, sh, sh.queue[1], h.slots[sh.queue[1]]);
  }

  lemma PopKeeps(h: Heap, sh: Shape, h': Heap, sh': Shape, f: nat)
    requires OthersKept(h, sh, h', sh', {f}) && f !in sh.chains && sh'.chains == sh.chains
    ensures OthersKept(h, sh, h', sh', {})
  {
  }

  lemma DummyKeeps(c: Checksum, h: Heap, sh: Shape, d: nat)
    requires Fits(c, h, sh) && sh.queue == [] && d in sh.chains && sh.chains[d] == []
    ensures d < |h.slots|
    ensures OthersKept(h, sh, Dummied(c, h, d), DummiedShape(sh, d), {d})
    ensures Messages(Dummied(c, h, d).slots, [d]) == []
  {
    Open(c, h, sh);
    assert OnePlace(sh.place, d, Head);
    KeepHeads(h, sh, Dummied(c, h, d), DummiedShape(sh, d), d);
  }

  /** A slot that became a head and stopped being one leaves the heads as they were. */
  lemma KeptBack(h: Heap, sh: Shape, h1: Heap, sh1: Shape, h2: Heap, sh2: Shape, x: nat)
    requires OthersKept(h, sh, h1, sh1, {x}) && OthersKept(h1, sh1, h2, sh2, {x})
    requires x !in sh.chains && sh1.chains == sh.chains[x := []] && sh2.chains == sh1.chains - {x}
    ensures OthersKept(h, sh, h2, sh2, {}) && sh2.chains == sh.chains
  {
    KeptTwice(h, sh, h1, sh1, h2, sh2, x);
    assert sh2.chains == sh.chains;
  }

  /** What the words of the superblock say of a sound heap. */
  lemma HeadWords(c: Checksum, h: Heap, sh: Shape)
    requires Fits(c, h, sh)
    ensures h.freeHead == FirstOff(sh.free) && h.freeCount == |sh.free| && h.queueHead == FirstOff(sh.queue)
    ensures h.queueTail == if sh.queue == [] then 0 else Off(sh.queue[|sh.queue| - 1])
  {
    Open(c, h, sh);
  }

  lemma SamePayload(h: Heap, sh: Shape, h': Heap, sh': Shape, x: nat)
    requires Same(h, sh, h', sh', x) && sh.chains[x] == [] && x < |h.slots| && x < |h'.slots|
    ensures h'.slots[x].payload == h.slots[x].payload
  {
    assert Stored(h, sh, x) == h.slots[x].payload && Stored(h', sh', x) == h'.slots[x].payload;
  }

  lemma WriteKeeps(c: Checksum, h: Heap, sh: Shape, x: nat, payload: seq<Byte>)
    requires Fits(c, h, sh) && x in sh.chains && x < |h.slots|
    ensures OthersKept(h, sh, Written(c, h, x, payload), sh, {x}) && MessagesKept(h, sh, Written(c, h, x, payload), sh)
  {
    Open(c, h, sh);
    assert OnePlace(sh.place, x, Head);
    KeepAll(c, h, sh, Written(c, h, x, payload), sh, x);
  }

  lemma MessageFits(payload: seq<Byte>, data: seq<Byte>)
    requires |payload| == PAYLOAD_SIZE && |data| < PAYLOAD_SIZE
    ensures var p := Overwrite(payload, 0, [|data|] + data);
      p[0] == |data| && Message(p) == data
  {
    var p := Overwrite(payload, 0, [|data|] + data);
    assert p[1..1 + |data|] == data;
  }

  lemma OffsDiffer(x: nat, y: nat)
    ensures Off(x) == Off(y) <==> x == y
  {
  }

  lemma StillAhead(free: seq<nat>, at: nat, id: nat)
    requires at <= |free| && id in free && id !in free[..at]
    ensures at < |free| && (free[at] == id || id !in free[..at + 1])
  {
  }

  lemma FreeLinks(c: Checksum, h: Heap, sh: Shape, i: nat)
    requires Fits(c, h, sh) && i < |sh.free|
    ensures |sh.free| <= |h.slots|
    ensures sh.free[i] < |h.slots| && h.slots[sh.free[i]].next == NextOff(sh.free, i)
    ensures At(|h.slots|, Off(sh.free[i])) == SlotRef.Slot(sh.free[i])
  {
    Open(c, h, sh);
    assert LinkAt(h.slots, sh.free, i);
    OffNames(|h.slots|, sh.free[i]);
    assert forall y: nat :: y in sh.free ==> OnePlace(sh.place, y, InFree);
    Pigeons(sh.free, |h.slots|);
  }

  lemma FreeIsListed(c: Checksum, h: Heap, sh: Shape, x: nat)
    requires Fits(c, h, sh) && x < |h.slots| && h.slots[x].status == FREE
    ensures x in sh.free && h.slots[x].payload == Zeros(PAYLOAD_SIZE)
  {
    Open(c, h, sh);
    assert SlotOk(c, sh, x, h.slots[x]);
    assert x in sh.free <==> OnePlace(sh.place, x, InFree);
  }

  lemma ClaimKeeps(c: Checksum, h: Heap, sh: Shape, i: nat)
    requires Fits(c, h, sh) && 0 < i < |sh.free|
    ensures var x, b := sh.free[i], sh.free[i - 1];
      && x < |h.slots| && b < |h.slots| && x != b && x !in sh.chains
      && var h', sh' := Claimed(c, h, x, Some(b)), ClaimedShape(sh, i);
         OthersKept(h, sh, h', sh', {x}) && MessagesKept(h, sh, h', sh') && h'.slots[x].payload == Zeros(PAYLOAD_SIZE)
  {
    Open(c, h, sh);
    ClaimFits(c, h, sh, i);
    var x, b := sh.free[i], sh.free[i - 1];
    assert x in sh.free && OnePlace(sh.place, x, InFree) && SlotOk(c, sh, x, h.slots[x]);
    KeepAll(c, h, sh, Claimed(c, h, x, Some(b)), ClaimedShape(sh, i), x);
  }

  lemma AttachKeeps(c: Checksum, h: Heap, sh: Shape, h1: Heap, sh1: Shape, x: nat, v: nat, payload: seq<Byte>)
    requires Fits(c, h1, sh1) && x in sh.chains && v !in sh.chains && sh1.chains == sh.chains[v := []]
      && |payload| == PAYLOAD_SIZE
    requires OthersKept(h, sh, h1, sh1, {v}) && MessagesKept(h, sh, h1, sh1)
    ensures v < |h1.slots| && Last(x, sh1.chains[x]) < |h1.slots| && Last(x, sh1.chains[x]) != v
    ensures var h', sh' := Attached(c, h1, Last(x, sh1.chains[x]), v, payload), AttachedShape(sh1, x, v);
      && OthersKept(h, sh, h', sh', {x}) && MessagesKept(h, sh, h', sh')
      && Stored(h', sh', x) == Stored(h, sh, x) + payload
      && sh'.chains == sh.chains[x := sh.chains[x] + [v]]
  {
    AttachStores(c, h1, sh1, x, v, payload);
    assert Same(h, sh, h1, sh1, x);
    var h', sh' := Attached(c, h1, Last(x, sh1.chains[x]), v, payload), AttachedShape(sh1, x, v);
    assert sh'.chains == sh.chains[x := sh.chains[x] + [v]];
    TakenAndGone(h, sh, h1, sh1, h', sh', x, v);
  }

  /** Heads other than `x` are kept when `v` becomes one and goes into the chain of `x`. */
  lemma TakenAndGone(h: Heap, sh: Shape, h1: Heap, sh1: Shape, h2: Heap, sh2: Shape, x: nat, v: nat)
    requires OthersKept(h, sh, h1, sh1, {v}) && x in sh.chains && v !in sh.chains
    requires forall y: nat :: y in sh1.chains && y != x && y != v ==> Same(h1, sh1, h2, sh2, y)
    requires sh2.chains == sh.chains[x := sh.chains[x] + [v]]
    ensures OthersKept(h, sh, h2, sh2, {x})
  {
    forall y: nat | y in sh.chains && y !in {x} ensures Same(h, sh, h2, sh2, y) {
      SameTrans(h, sh, h1, sh1, h2, sh2, y);
    }
  }

  lemma HeadSize(c: Checksum, h: Heap, sh: Shape, x: nat)
    requires Fits(c, h, sh) && x in sh.chains
    ensures x < |h.slots| && |h.slots[x].payload| == PAYLOAD_SIZE
  {
    Open(c, h, sh);
    assert ChainOk(h, sh, x) && SlotOk(c, sh, x, h.slots[x]);
  }

  /** The first `copied` bytes of `data` are in place behind the header. */
  ghost predicate Progress(stored: seq<Byte>, header: seq<Byte>, data: seq<Byte>, copied: nat) {
    && copied <= |data| && |stored| >= HEADER_SIZE + copied
    && stored[..HEADER_SIZE] == header && stored[HEADER_SIZE..HEADER_SIZE + copied] == data[..copied]
  }

  /** Behind a blob of `len` bytes: what the head held there before, or zeros in the last overflow slot. */
  ghost predicate Remains(before: seq<Byte>, stored: seq<Byte>, len: nat) {
    && |before| == 48 && |stored| == 48 + 48 * Overflows(len) && 8 + len <= |stored|
    && stored[8 + len..] == if len <= 40 then before[8 + len..] else Zeros(|stored| - 8 - len)
  }

  lemma OverwrittenRest(s: seq<Byte>, t: seq<Byte>)
    requires |t| <= |s|
    ensures Overwrite(s, 0, t)[..|t|] == t && Overwrite(s, 0, t)[|t|..] == s[|t|..]
  {
  }

  lemma ProgressStep(stored: seq<Byte>, header: seq<Byte>, data: seq<Byte>, copied: nat, bytes: seq<Byte>,
      pad: seq<Byte>)
    requires Progress(stored, header, data, copied) && |stored| == HEADER_SIZE + copied
    requires copied + |bytes| <= |data| && bytes == data[copied..copied + |bytes|]
    ensures Progress(stored + (bytes + pad), header, data, copied + |bytes|)
  {
    var s := stored + (bytes + pad);
    assert s[HEADER_SIZE..HEADER_SIZE + (copied + |bytes|)] == stored[HEADER_SIZE..] + bytes;
    assert data[..copied + |bytes|] == data[..copied] + bytes;
  }

  lemma ProgressEnds(stored: seq<Byte>, data: seq<Byte>)
    requires Progress(stored, BlobHeader(|data|), data, |data|) && |data| < 0x1_0000_0000
    ensures IsBlob(stored, data)
  {
    HeaderReads(|data|, stored[HEADER_SIZE..]);
    assert stored == BlobHeader(|data|) + stored[HEADER_SIZE..];
  }

  /** What the loop of `ef_write_blob` starts from: a heap, its supply, a head, and the bytes to store there. */
  datatype Plan = Plan(h: Heap, sh: Shape, supply: seq<nat>, id: nat, header: seq<Byte>, data: seq<Byte>,
    before: seq<Byte>)

  /** The state of the loop: `k` slots taken from the supply and linked, `copied` bytes in place. */
  ghost predicate Filling(p: Plan, chains: map<nat, seq<nat>>, stored: seq<Byte>, left: seq<nat>, copied: nat, k: nat) {
    && k <= |p.supply| && k <= Overflows(|p.data|) && |p.before| == PAYLOAD_SIZE
    && chains == p.sh.chains[p.id := p.supply[..k]] && left == p.supply[k..]
    && Progress(stored, p.header, p.data, copied)
    && (copied < |p.data| ==> copied == INLINE + PAYLOAD_SIZE * k && |stored| == HEADER_SIZE + copied)
    && (copied == |p.data| ==> k == Overflows(|p.data|) && Remains(p.before, stored, |p.data|))
  }

  /** The invariant of the loop, closed as `Fits` is. */
  ghost predicate Underway(p: Plan, h: Heap, sh: Shape, left: seq<nat>, copied: nat, k: nat, tail: nat) {
    forall i: nat {:trigger Opening(i)} :: Opening(i) ==>
      && p.id in sh.chains && tail == Last(p.id, sh.chains[p.id])
      && OthersKept(p.h, p.sh, h, sh, {p.id}) && MessagesKept(p.h, p.sh, h, sh)
      && Filling(p, sh.chains, Stored(h, sh, p.id), left, copied, k)
  }

  ghost predicate Stopped(p: Plan, h: Heap, sh: Shape) {
    && sh.chains == p.sh.chains[p.id := p.supply]
    && OthersKept(p.h, p.sh, h, sh, {p.id}) && MessagesKept(p.h, p.sh, h, sh)
  }

  lemma FillStarts(p: Plan)
    requires p.id in p.sh.chains && p.sh.chains[p.id] == [] && |Stored(p.h, p.sh, p.id)| == PAYLOAD_SIZE
    requires Progress(Stored(p.h, p.sh, p.id), p.header, p.data, InlinePart(|p.data|)) && |p.before| == PAYLOAD_SIZE
    requires var n := HEADER_SIZE + InlinePart(|p.data|); Stored(p.h, p.sh, p.id)[n..] == p.before[n..]
    ensures Underway(p, p.h, p.sh, p.supply, InlinePart(|p.data|), 0, p.id)
  {
    assert p.sh.chains == p.sh.chains[p.id := []];
  }

  lemma FillStep(p: Plan, chains: map<nat, seq<nat>>, stored: seq<Byte>, left: seq<nat>, copied: nat, k: nat,
                 chains': map<nat, seq<nat>>)
    requires Filling(p, chains, stored, left, copied, k) && copied < |p.data| && left != []
    requires p.id in chains && chains' == chains[p.id := chains[p.id] + [left[0]]]
    ensures var chunk := ChunkSize(|p.data| - copied);
      Filling(p, chains', stored + (p.data[copied..copied + chunk] + Zeros(PAYLOAD_SIZE - chunk)), left[1..],
          copied + chunk, k + 1)
  {
    var chunk := ChunkSize(|p.data| - copied);
    var bytes, pad := p.data[copied..copied + chunk], Zeros(PAYLOAD_SIZE - chunk);
    ProgressStep(stored, p.header, p.data, copied, bytes, pad);
    assert (stored + (bytes + pad))[HEADER_SIZE + copied + chunk..] == pad;
    assert p.supply[..k] + [p.supply[k]] == p.supply[..k + 1] && p.supply[k..][1..] == p.supply[k + 1..];
    assert chains' == p.sh.chains[p.id := p.supply[..k + 1]];
  }

  lemma FillTail(p: Plan, h: Heap, sh: Shape, left: seq<nat>, copied: nat, k: nat, tail: nat)
    requires Underway(p, h, sh, left, copied, k, tail)
    ensures p.id in sh.chains && tail == Last(p.id, sh.chains[p.id])
  {
    assert Opening(0);
  }

  lemma FillMoves(p: Plan, h: Heap, sh: Shape, left: seq<nat>, copied: nat, k: nat, tail: nat,
                  h': Heap, sh': Shape, left': seq<nat>, upto: nat, k': nat, v: nat, bytes: seq<Byte>)
    requires Underway(p, h, sh, left, copied, k, tail) && p.id in sh.chains && copied < |p.data|
    requires left != [] && v == left[0] && left' == left[1..] && k' == k + 1
    requires upto == copied + ChunkSize(|p.data| - copied) && bytes == p.data[copied..upto]
    requires sh'.chains == sh.chains[p.id := sh.chains[p.id] + [v]]
    requires Stored(h', sh', p.id) == Stored(h, sh, p.id) + (bytes + Zeros(PAYLOAD_SIZE - |bytes|))
    requires OthersKept(h, sh, h', sh', {p.id}) && MessagesKept(h, sh, h', sh')
    ensures Underway(p, h', sh', left', upto, k', v)
  {
    FillParts(p, h, sh, left, copied, k, tail);
    KeptTwice(p.h, p.sh, h, sh, h', sh', p.id);
    FillStep(p, sh.chains, Stored(h, sh, p.id), left, copied, k, sh'.chains);
    assert |bytes| == upto - copied;
  }

  lemma FillParts(p: Plan, h: Heap, sh: Shape, left: seq<nat>, copied: nat, k: nat, tail: nat)
    requires Underway(p, h, sh, left, copied, k, tail)
    ensures p.id in sh.chains && OthersKept(p.h, p.sh, h, sh, {p.id}) && MessagesKept(p.h, p.sh, h, sh)
    ensures Filling(p, sh.chains, Stored(h, sh, p.id), left, copied, k)
  {
    assert Opening(0);
  }

  lemma FillStops(p: Plan, h: Heap, sh: Shape, left: seq<nat>, copied: nat, k: nat, tail: nat)
    requires Underway(p, h, sh, left, copied, k, tail) && copied < |p.data| && left == []
    ensures Stopped(p, h, sh) && |p.supply| < Overflows(|p.data|)
  {
    assert Opening(0);
    assert p.supply[..k] == p.supply;
  }

  lemma FillEnds(p: Plan, h: Heap, sh: Shape, left: seq<nat>, k: nat, tail: nat)
    requires Underway(p, h, sh, left, |p.data|, k, tail) && p.id in p.sh.chains
    ensures Overflows(|p.data|) <= |p.supply| && left == p.supply[Overflows(|p.data|)..]
    ensures sh.chains.Keys == p.sh.chains.Keys && sh.chains[p.id] == p.supply[..Overflows(|p.data|)]
    ensures OthersKept(p.h, p.sh, h, sh, {p.id}) && MessagesKept(p.h, p.sh, h, sh)
    ensures Progress(Stored(h, sh, p.id), p.header, p.data, |p.data|)
    ensures Remains(p.before, Stored(h, sh, p.id), |p.data|)
  {
    assert Opening(0);
  }

  /** The loop has run to its end: the blob is there, and nothing else has changed. */
  lemma BlobDone(p: Plan, h0: Heap, sh0: Shape, h: Heap, sh: Shape, left: seq<nat>, k: nat, tail: nat)
    requires Underway(p, h, sh, left, |p.data|, k, tail) && p.id in p.sh.chains
    requires OthersKept(h0, sh0, p.h, p.sh, {p.id}) && |p.data| < 0x1_0000_0000 && p.header == BlobHeader(|p.data|)
    ensures Overflows(|p.data|) <= |p.supply| && left == p.supply[Overflows(|p.data|)..]
    ensures sh.chains.Keys == p.sh.chains.Keys && sh.chains[p.id] == p.supply[..Overflows(|p.data|)]
    ensures OthersKept(h0, sh0, h, sh, {p.id}) && MessagesKept(p.h, p.sh, h, sh)
    ensures IsBlob(Stored(h, sh, p.id), p.data) && Remains(p.before, Stored(h, sh, p.id), |p.data|)
  {
    FillEnds(p, h, sh, left, k, tail);
    KeptTwice(h0, sh0, p.h, p.sh, h, sh, p.id);
    ProgressEnds(Stored(h, sh, p.id), p.data);
  }

  lemma TwoTaken(supply: seq<nat>, free: seq<nat>, n: nat, limit: nat)
    requires supply != [] && Supply(free, n, limit) == supply[1..]
    ensures free != [] ==> |supply| >= 2 && Supply(free[1..], n, limit) == supply[2..]
    ensures free == [] ==> Supply([supply[0]], n, limit) == supply
  {
    if free != [] {
      SupplyStep(free, n, limit);
      assert supply[1..][1..] == supply[2..];
    } else {
      assert supply == [supply[0]] + supply[1..];
    }
  }

  lemma HeldInHead(c: Checksum, h: Heap, sh: Shape, x: nat)
    requires Fits(c, h, sh) && x in sh.chains
    ensures x < |h.slots| && |h.slots[x].payload| == PAYLOAD_SIZE && h.slots[x].next == FirstOff(sh.chains[x])
    ensures |Stored(h, sh, x)| == PAYLOAD_SIZE * (1 + |sh.chains[x]|)
    ensures Stored(h, sh, x)[..PAYLOAD_SIZE] == h.slots[x].payload
    ensures HasMagic(Stored(h, sh, x)) == HasMagic(h.slots[x].payload)
    ensures LengthField(Stored(h, sh, x)) == LengthField(h.slots[x].payload)
  {
    Open(c, h, sh);
    StoredLength(c, h, sh, x);
    assert ChainOk(h, sh, x) && SlotOk(c, sh, x, h.slots[x]);
    var s, p := Stored(h, sh, x), h.slots[x].payload;
    assert s[..PAYLOAD_SIZE] == p;
    assert s[..4] == p[..4] && s[4..8] == p[4..8];
  }

  /** The `k`-th overflow slot holds its part of what the head stores, and links to the next. */
  lemma HeldInChain(c: Checksum, h: Heap, sh: Shape, x: nat, k: nat)
    requires NeverZero(c) && Fits(c, h, sh) && x in sh.chains && k < |sh.chains[x]|
    ensures sh.chains[x][k] < |h.slots| && CrcValid(c, sh.chains[x][k], h.slots[sh.chains[x][k]])
    ensures h.slots[sh.chains[x][k]].status == OVERFLOW
    ensures var v := sh.chains[x][k];
      && v < |h.slots| && At(|h.slots|, Off(v)) == SlotRef.Slot(v) && h.slots[v].next == FirstOff(sh.chains[x][k + 1..])
      && |h.slots[v].payload| == PAYLOAD_SIZE && |Stored(h, sh, x)| == PAYLOAD_SIZE * (1 + |sh.chains[x]|)
      && Stored(h, sh, x)[PAYLOAD_SIZE * (1 + k)..PAYLOAD_SIZE * (2 + k)] == h.slots[v].payload
  {
    Open(c, h, sh);
    StoredLength(c, h, sh, x);
    var l := sh.chains[x];
    assert ChainOk(h, sh, x) && LinkAt(h.slots, l, k);
    assert l[k] in l && OnePlace(sh.place, l[k], Overflow(x)) && SlotOk(c, sh, l[k], h.slots[l[k]]);
    OffNames(|h.slots|, l[k]);
    SealedIsValid(c, l[k], h.slots[l[k]]);
    forall i: nat | i < |l| ensures |PayloadOf(h.slots, l[i])| == PAYLOAD_SIZE {
      assert l[i] in l && OnePlace(sh.place, l[i], Overflow(x)) && SlotOk(c, sh, l[i], h.slots[l[i]]);
    }
    assert |h.slots[x].payload| == PAYLOAD_SIZE by {
      assert OnePlace(sh.place, x, Head) && SlotOk(c, sh, x, h.slots[x]);
    }
    BytesAt(h.slots, l, k);
  }

  lemma {:induction false} BytesAt(slots: seq<Slot>, l: seq<nat>, k: nat)
    requires k < |l| && forall i: nat :: i < |l| ==> |PayloadOf(slots, l[i])| == PAYLOAD_SIZE
    ensures |Bytes(slots, l)| == PAYLOAD_SIZE * |l| && PAYLOAD_SIZE * (k + 1) <= |Bytes(slots, l)|
    ensures Bytes(slots, l)[PAYLOAD_SIZE * k..PAYLOAD_SIZE * (k + 1)] == PayloadOf(slots, l[k])
    decreases l
  {
    var a, b := PayloadOf(slots, l[0]), Bytes(slots, l[1..]);
    assert Bytes(slots, l) == a + b;
    BytesLength(slots, l);
    BytesLength(slots, l[1..]);
    if k == 0 {
      assert (a + b)[..|a|] == a;
    } else {
      BytesAt(slots, l[1..], k - 1);
      Shifted(a, b, PAYLOAD_SIZE * (k - 1), PAYLOAD_SIZE * k);
    }
  }

  lemma Shifted(a: seq<Byte>, b: seq<Byte>, from: nat, to: nat)
    requires from <= to <= |b|
    ensures (a + b)[|a| + from..|a| + to] == b[from..to]
  {
  }

  /** The state of the loop of `ef_read_blob`: `k` overflow slots read. */
  ghost predicate Reading(held: seq<Byte>, links: nat, len: nat, cap: nat, out: seq<Byte>, k: nat) {
    && k <= links && |held| == PAYLOAD_SIZE * (1 + links)
    && |out| <= len && |out| <= cap && HEADER_SIZE + |out| <= PAYLOAD_SIZE * (1 + k)
    && out == held[HEADER_SIZE..HEADER_SIZE + |out|]
    && (|out| < len && |out| < cap ==> HEADER_SIZE + |out| == PAYLOAD_SIZE * (1 + k))
  }

  lemma ReadStarts(held: seq<Byte>, chain: seq<nat>, len: nat, cap: nat, out: seq<Byte>)
    requires |held| == PAYLOAD_SIZE * (1 + |chain|)
    requires var n := InlinePart(len);
      out == held[..PAYLOAD_SIZE][HEADER_SIZE..HEADER_SIZE + if n < cap then n else cap]
    ensures Reading(held, |chain|, len, cap, out, 0) && chain[0..] == chain
  {
    var m := |out|;
    SliceOfSlice(held, 0, PAYLOAD_SIZE, HEADER_SIZE, HEADER_SIZE + m);
  }

  lemma ReadStep(held: seq<Byte>, links: nat, len: nat, cap: nat, out: seq<Byte>, k: nat, payload: seq<Byte>, n: nat)
    requires Reading(held, links, len, cap, out, k) && k < links && |out| < len && |out| < cap
    requires |payload| == PAYLOAD_SIZE && payload == held[PAYLOAD_SIZE * (1 + k)..PAYLOAD_SIZE * (2 + k)]
    requires var m := ChunkSize(len - |out|);
      n == if m < cap - |out| then m else cap - |out|
    ensures n <= |payload| && Reading(held, links, len, cap, out + payload[..n], k + 1)
  {
    SliceOfSlice(held, PAYLOAD_SIZE * (1 + k), PAYLOAD_SIZE * (2 + k), 0, n);
    SlicesMeet(held, HEADER_SIZE, HEADER_SIZE + |out|, HEADER_SIZE + |out| + n);
  }

  lemma SlicesMeet(s: seq<Byte>, a: nat, b: nat, c: nat)
    requires a <= b <= c <= |s|
    ensures s[a..b] + s[b..c] == s[a..c]
  {
  }

  lemma ReadEnds(held: seq<Byte>, links: nat, len: nat, cap: nat, out: seq<Byte>, k: nat)
    requires Reading(held, links, len, cap, out, k) && len == LengthField(held)
    requires |out| >= len || |out| >= cap || k == links
    ensures out == Copied(held, cap)
  {
  }
}
