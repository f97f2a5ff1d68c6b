/**
 Transactions (`src/ef_txn.c`) on one handle: begin, commit, abort, and recovery when a database is opened whose
 last transaction was left active, with the rebuilding of the free list that follows (`src/endfields.c`).
 */
module Txn {
  import opened Base
  import opened Slots
  import opened Heaps
  import opened Undo

  const STATE_NONE: nat := 0
  const STATE_ACTIVE: nat := 1
  const STATE_ABORTING: nat := 2
  const UNDO_HEADER_MAGIC: nat := 0x4F44_4E55
  const UNDO_HEADER_SIZE: nat := 32
  const UNDO_RECORD_SIZE: nat := 32

  // ---------- The free list that opening rebuilds ----------

  /** The free slots from number `i` on, in ascending order. */
  function FreeFrom(slots: seq<Slot>, i: nat): seq<nat>
    decreases |slots| - i
  {
    if i >= |slots| then []
    else if slots[i].status == FREE then [i] + FreeFrom(slots, i + 1)
    else FreeFrom(slots, i + 1)
  }

  /** `ef_db_refresh_checksums`. */
  function Refreshed(c: Checksum, id: nat, s: Slot): Slot {
    if HasCrc(s.status) then Seal(c, id, s) else s
  }

  /** Slot `i` after the list has been rebuilt: a free one links to the next free one. */
  function Relinked(slots: seq<Slot>, i: nat): Slot
    requires i < |slots| <= MOST_SLOTS
  {
    FreeFromBelow(slots, i + 1);
    if slots[i].status == FREE then slots[i].(next := FirstOff(FreeFrom(slots, i + 1))) else slots[i]
  }

  lemma {:induction false} FreeFromBelow(slots: seq<Slot>, i: nat)
    ensures forall j: nat :: j < |FreeFrom(slots, i)| ==> i <= FreeFrom(slots, i)[j] < |slots|
    decreases |slots| - i
  {
    if i < |slots| {
      FreeFromBelow(slots, i + 1);
    }
  }

  /** Exactly the free slots, each once, in ascending order. */
  lemma {:induction false} FreeFromIsExact(slots: seq<Slot>, i: nat)
    ensures forall x: nat :: x in FreeFrom(slots, i) <==> i <= x < |slots| && slots[x].status == FREE
    ensures forall j: nat, k: nat :: j < k < |FreeFrom(slots, i)| ==> FreeFrom(slots, i)[j] < FreeFrom(slots, i)[k]
    decreases |slots| - i
  {
    if i < |slots| {
      FreeFromIsExact(slots, i + 1);
      FreeFromBelow(slots, i + 1);
    }
  }

  /** The links of the rebuilt slots run through the free slots from any of them on. */
  lemma {:induction false} RelinkedLinks(slots: seq<Slot>, slots': seq<Slot>, i: nat)
    requires |slots'| == |slots| <= MOST_SLOTS && forall x: nat :: x < |slots| ==>
      slots'[x].next == Relinked(slots, x).next
    ensures Linked(slots', FreeFrom(slots, i))
    decreases |slots| - i
  {
    if i < |slots| {
      RelinkedLinks(slots, slots', i + 1);
      var l, m := FreeFrom(slots, i), FreeFrom(slots, i + 1);
      FreeFromBelow(slots, i);
      if slots[i].status == FREE {
        forall j: nat | j < |l| ensures LinkAt(slots', l, j) {
          if j > 0 {
            assert LinkAt(slots', m, j - 1);
          } else {
            assert NextOff(l, 0) == FirstOff(m);
          }
        }
      }
    }
  }

  /** A slot before and after: only the link of a free slot may differ, and the checksum, which is good. */
  ghost predicate SlotKept(c: Checksum, id: nat, s: Slot, s': Slot) {
    && s'.status == s.status && s'.payload == s.payload && (s.status != FREE ==> s'.next == s.next)
    && CrcValid(c, id, s') && (!HasCrc(s.status) ==> s'.crc == s.crc)
  }

  /**
   What rebuilding makes of any slots at all: every slot is kept, and passes its test; the free list is exactly the
   free slots, ascending, and counted.
   */
  ghost predicate Rebuilt(c: Checksum, h: Heap, h': Heap) {
    && |h'.slots| == |h.slots| <= MOST_SLOTS
    && (forall i: nat :: i < |h.slots| ==> SlotKept(c, i, h.slots[i], h'.slots[i]))
    && h'.freeHead == FirstOff(FreeFrom(h.slots, 0)) && h'.freeCount == |FreeFrom(h.slots, 0)|
    && Linked(h'.slots, FreeFrom(h.slots, 0))
    && h'.queueHead == h.queueHead && h'.queueTail == h.queueTail
  }

  /** What the two loops store is that. */
  lemma StoredIsRebuilt(c: Checksum, h: Heap, h': Heap)
    requires Proper(c) && |h'.slots| == |h.slots| <= MOST_SLOTS
    requires forall i: nat :: i < |h.slots| ==> h'.slots[i] == Refreshed(c, i, Relinked(h.slots, i))
    requires h'.freeHead == FirstOff(FreeFrom(h.slots, 0)) && h'.freeCount == |FreeFrom(h.slots, 0)|
    requires h'.queueHead == h.queueHead && h'.queueTail == h.queueTail
    ensures Rebuilt(c, h, h')
  {
    RelinkedLinks(h.slots, h'.slots, 0);
  }

  lemma RebuiltList(c: Checksum, h: Heap, h': Heap)
    requires Rebuilt(c, h, h')
    ensures var l := FreeFrom(h'.slots, 0);
      && Linked(h'.slots, l) && Distinct(l) && h'.freeHead == FirstOff(l) && h'.freeCount == |l|
      && (forall j: nat, k: nat :: j < k < |l| ==> l[j] < l[k])
      && forall x: nat :: x in l <==> x < |h'.slots| && h'.slots[x].status == 0
  {
    assert forall x: nat :: x < |h.slots| ==> SlotKept(c, x, h.slots[x], h'.slots[x]);
    SameFree(h.slots, h'.slots, 0);
    FreeFromIsExact(h'.slots, 0);
  }

  lemma {:induction false} SameFree(slots: seq<Slot>, slots': seq<Slot>, i: nat)
    requires |slots'| == |slots| && forall x: nat :: x < |slots| ==> slots'[x].status == slots[x].status
    ensures FreeFrom(slots', i) == FreeFrom(slots, i)
    decreases |slots| - i
  {
    if i < |slots| {
      SameFree(slots, slots', i + 1);
    }
  }

  lemma {:induction false} FreeFromSize(slots: seq<Slot>, i: nat)
    requires i <= |slots|
    ensures |FreeFrom(slots, i)| <= |slots| - i
    decreases |slots| - i
  {
    if i < |slots| {
      FreeFromSize(slots, i + 1);
    }
  }

  // ---------- The handle ----------

  /** A database with its undo log. The first two groups of fields are in the mapping and outlive the handle. */
  class Db {
    const crc: Checksum
    const logSlots: nat
    var slots: seq<Slot>
    var freeListHead: Word
    var freeCount: nat
    var queueHead: Word
    var queueTail: Word

    var records: seq<Record>
    var headerMagic: nat
    var headerTail: nat
    var headerCount: nat
    var sbState: nat
    var sbLock: bool

    var txnActive: bool
    var txnState: nat
    var undoTail: nat
    var undoRecordCount: nat

    ghost function View(): Heap
      reads this
    {
      Heap(slots, freeListHead, freeCount, queueHead, queueTail)
    }

    /** The mapping is well formed, whoever left it: the header covers the records written so far. */
    ghost predicate Mapped()
      reads this
    {
      && Proper(crc) && WellSized(View()) && |records| == logSlots && Records(records)
      && headerCount <= logSlots
      && (headerCount == 0 ==> headerMagic == 0 && headerTail == 0)
      && (headerCount > 0 ==>
        headerMagic == UNDO_HEADER_MAGIC && headerTail == UNDO_HEADER_SIZE + UNDO_RECORD_SIZE * headerCount)
      && (sbState == STATE_NONE || sbState == STATE_ACTIVE || sbState == STATE_ABORTING)
      && (sbState == STATE_NONE ==> headerCount == 0)
    }

    /** The records of the log. */
    ghost function Log(): seq<Record>
      reads this
      requires Mapped()
    {
      records[..headerCount]
    }

    /**
     At every boundary of an operation: the handle agrees with the mapping, and without an active transaction the
     state is NONE and the log is empty.
     */
    ghost predicate Valid()
      reads this
    {
      && Mapped()
      && undoRecordCount == headerCount && undoTail == UNDO_HEADER_SIZE + UNDO_RECORD_SIZE * undoRecordCount
      && sbState == (if txnActive then STATE_ACTIVE else STATE_NONE) && (txnActive ==> sbLock)
      && txnState == (if txnActive then STATE_ACTIVE else STATE_NONE)
    }

    /** A new database of `n` slots, with an empty log and no transaction. */
    constructor (c: Checksum, n: nat)
      requires Proper(c) && n <= MOST_SLOTS
      ensures Valid() && !txnActive && !sbLock && crc == c && logSlots == UNDO_LOG_SLOTS
      ensures |slots| == n && freeListHead == FirstOff(FreeFrom(slots, 0)) && freeCount == n
      ensures freeListHead == (if n == 0 then 0 else 64) && queueHead == 0 && queueTail == 0
      ensures forall i: nat :: i < n ==>
        && slots[i].status == 0 && slots[i].crc == 0 && slots[i].payload == Zeros(48)
        && slots[i].next == if i + 1 < n then 64 + 64 * (i + 1) else 0
    {
      crc, logSlots := c, UNDO_LOG_SLOTS;
      var built := seq(n, i requires 0 <= i < n => NewSlot(n, i));
      FreshIsFree(built, 0);
      slots := built;
      freeListHead := if n == 0 then 0 else Off(0);
      freeCount := n;
      queueHead, queueTail := 0, 0;
      records := seq(UNDO_LOG_SLOTS, _ => Record(0, 0, 0, Zeros(12)));
      headerMagic, headerTail, headerCount := 0, 0, 0;
      sbState, sbLock := STATE_NONE, false;
      txnActive, txnState := false, STATE_NONE;
      undoTail, undoRecordCount := UNDO_HEADER_SIZE, 0;
    }

    /** `ef_undo_reset`. */
    method ResetLog()
      requires Mapped()
      modifies this`records, this`headerMagic, this`headerTail, this`headerCount, this`undoTail, this`undoRecordCount
      ensures Mapped() && headerCount == 0 && undoRecordCount == 0 && undoTail == UNDO_HEADER_SIZE
    {
      records := seq(logSlots, _ => Record(0, 0, 0, Zeros(12)));
      headerMagic, headerTail, headerCount := 0, 0, 0;
      undoTail, undoRecordCount := UNDO_HEADER_SIZE, 0;
    }

    /** `ef_txn_begin`; the lock may be held by another process. */
    method Begin() returns (err: Err)
      requires Valid()
      modifies this
      ensures Valid() && View() == old(View())
      ensures old(txnActive) || old(sbLock) ==> err == TxnBusy && unchanged(this)
      ensures !old(txnActive) && !old(sbLock) ==> err == Ok && txnActive && Log() == []
    {
      if txnActive {
        return TxnBusy;
      }
      if sbLock {
        return TxnBusy;
      }
      sbLock := true;
      sbState := STATE_ACTIVE;
      txnState := STATE_ACTIVE;
      txnActive := true;
      ResetLog();
      return Ok;
    }

    /** `ef_txn_commit`. */
    method Commit() returns (err: Err)
      requires Valid()
      modifies this
      ensures Valid() && View() == old(View()) && err == Ok && !txnActive && Log() == []
      ensures !old(txnActive) ==> unchanged(this)
      ensures old(txnActive) ==> !sbLock
    {
      if !txnActive {
        return Ok;
      }
      Leave();
      return Ok;
    }

    /** How a transaction ends: committed, aborted or recovered. */
    method Leave()
      requires Mapped()
      modifies this`records, this`headerMagic, this`headerTail, this`headerCount, this`undoTail, this`undoRecordCount,
               this`txnState, this`txnActive, this`sbState, this`sbLock
      ensures Valid() && !txnActive && !sbLock && Log() == []
    {
      txnState := STATE_NONE;
      txnActive := false;
      ResetLog();
      sbState := STATE_NONE;
      sbLock := false;
    }

    /** `ef_undo_record_append`. */
    method AppendRecord(kind: nat, target: Word, aux: Word, before: seq<Byte>) returns (err: Err)
      requires Valid() && |before| == 12
      modifies this`records, this`headerMagic, this`headerTail, this`headerCount, this`undoTail, this`undoRecordCount
      ensures Valid()
      ensures Log() == if txnActive then AppendOne(old(Log()), logSlots, Record(kind, target, aux,
          before)) else old(Log())
    {
      if !txnActive {
        return Ok;
      }
      var endOffset := UNDO_HEADER_SIZE + logSlots * UNDO_RECORD_SIZE;
      if undoTail + UNDO_RECORD_SIZE > endOffset {
        return TxnLogFull;
      }
      var at := (undoTail - UNDO_HEADER_SIZE) / UNDO_RECORD_SIZE;
      records := records[at := Record(kind, target, aux, before)];
      undoTail := undoTail + UNDO_RECORD_SIZE;
      undoRecordCount := undoRecordCount + 1;
      headerTail := undoTail;
      headerCount := undoRecordCount;
      if headerMagic != UNDO_HEADER_MAGIC {
        headerMagic := UNDO_HEADER_MAGIC;
      }
      return Ok;
    }

    /** The tests of `ef_alloc_slot_ex`, and the slot that it takes. */
    method CheckAlloc() returns (err: Err, id: nat)
      requires Mapped()
      ensures err == AllocEffect(crc, View(), true).err == AllocEffect(crc, View(), false).err
      ensures err == Ok ==> id < |slots| && At(|slots|, freeListHead).Slot? && At(|slots|, freeListHead).id == id
      ensures err == Ok ==> freeListHead == Off(id) && freeListHead < ExpectedSize(|slots|) && freeCount > 0
    {
      id := 0;
      if freeListHead == 0 || freeCount == 0 {
        return SlotFull, id;
      }
      if freeListHead >= ExpectedSize(|slots|) {
        return Offset, id;
      }
      var at := At(|slots|, freeListHead);
      if at.Bad? {
        return at.err, id;
      }
      NamesOff(|slots|, freeListHead);
      return Ok, at.id;
    }

    /** `ef_alloc_slot_ex`. */
    method AllocSlot(clear: bool) returns (err: Err, id: nat)
      requires Valid()
      modifies this
      ensures Valid() && txnActive == old(txnActive) && sbLock == old(sbLock)
      ensures View() == AllocEffect(crc, old(View()), clear).heap && err == AllocEffect(crc, old(View()), clear).err
      ensures err == Ok ==> old(freeListHead) == Off(id)
      ensures Log() == Logged(txnActive, old(Log()), logSlots, AllocEffect(crc, old(View()), clear).records)
    {
      err, id := CheckAlloc();
      AllocSized(crc, View(), clear);
      NoRecord(Log(), logSlots);
      if err != Ok {
        return err, id;
      }
      StoreAlloc(id, clear);
    }

    /** The first free slot is taken, and recorded. */
    method StoreAlloc(id: nat, clear: bool)
      requires Valid() && id < |slots| && WellSized(AllocStored(crc, View(), id, clear).heap)
      modifies this
      ensures Valid() && txnActive == old(txnActive) && sbLock == old(sbLock)
      ensures View() == AllocStored(crc, old(View()), id, clear).heap
      ensures Log() == Logged(txnActive, old(Log()), logSlots, AllocStored(crc, old(View()), id, clear).records)
    {
      var s := slots[id];
      freeListHead := s.next;
      s := s.(next := 0, status := USED);
      if clear {
        s := s.(payload := Zeros(PAYLOAD_SIZE));
      }
      freeCount := (freeCount + COUNT_SPAN - 1) % COUNT_SPAN;
      slots := slots[id := Seal(crc, id, s)];
      var before := StatusBytes(FREE, slots[id].crc);
      RecordAlloc(id, before);
    }

    /** The two records of an allocation. */
    method RecordAlloc(id: nat, before: seq<Byte>)
      requires Valid() && id < MOST_SLOTS && |before| == 12
      modifies this`records, this`headerMagic, this`headerTail, this`headerCount, this`undoTail, this`undoRecordCount
      ensures Valid()
      ensures Log() == Logged(txnActive, old(Log()), logSlots, [SlotRecord(SLOT_ALLOC, id, before), CountRecord(-1)])
    {
      var ignored := AppendRecord(SLOT_ALLOC, Off(id), 0, before);
      ignored := AppendRecord(FREE_COUNT, 0, (-1) % WORD, Zeros(12));
      TwoRecords(old(Log()), logSlots, SlotRecord(SLOT_ALLOC, id, before), CountRecord(-1));
    }

    /** The tests of `ef_set_next_offset`. */
    method CheckNext(id: nat, next: Word) returns (err: Err)
      requires Mapped()
      ensures err == NextEffect(crc, View(), id, next).err
      ensures err == Ok ==> id < |slots| && NextEffect(crc, View(), id, next) == NextStored(crc, View(), id, next)
      ensures err != Ok ==> NextEffect(crc, View(), id, next) == Effect(View(), [], err)
    {
      if id >= |slots| {
        return SlotId;
      }
      if HasCrc(slots[id].status) && !CrcValid(crc, id, slots[id]) {
        return BadChecksum;
      }
      if slots[id].status != USED {
        return SlotFree;
      }
      if HasChain(slots[id].next) {
        return SlotBusy;
      }
      if next != 0 {
        var at := At(|slots|, next);
        if at.Bad? {
          return at.err;
        }
      }
      return Ok;
    }

    /** `ef_slot_has_overflow_chain` for a slot with this link. */
    predicate HasChain(next: Word)
      reads this
    {
      next != 0 && At(|slots|, next).Slot? && At(|slots|, next).id < |slots|
        && slots[At(|slots|, next).id].status == OVERFLOW
    }

    /** `ef_set_next_offset`. */
    method SetNextOffset(id: nat, next: Word) returns (err: Err)
      requires Valid()
      modifies this
      ensures Valid() && txnActive == old(txnActive) && sbLock == old(sbLock)
      ensures View() == NextEffect(crc, old(View()), id, next).heap && err == NextEffect(crc, old(View()), id, next).err
      ensures Log() == Logged(txnActive, old(Log()), logSlots, NextEffect(crc, old(View()), id, next).records)
    {
      err := CheckNext(id, next);
      NextSized(crc, View(), id, next);
      NoRecord(Log(), logSlots);
      if err != Ok {
        return err;
      }
      StoreNext(id, next);
    }

    /** A link is recorded, if it changes, and written. */
    method StoreNext(id: nat, next: Word)
      requires Valid() && id < |slots| && WellSized(NextStored(crc, View(), id, next).heap)
      modifies this
      ensures Valid() && txnActive == old(txnActive) && sbLock == old(sbLock)
      ensures View() == NextStored(crc, old(View()), id, next).heap
      ensures Log() == Logged(txnActive, old(Log()), logSlots, NextStored(crc, old(View()), id, next).records)
    {
      var prior := slots[id].next;
      NoRecord(Log(), logSlots);
      if prior != next {
        var ignored := AppendRecord(SLOT_NEXT, Off(id), 0, NextBytes(prior));
        OneRecord(old(Log()), logSlots, SlotRecord(SLOT_NEXT, id, NextBytes(prior)));
      }
      slots := slots[id := Seal(crc, id, slots[id].(next := next))];
    }

    /** `ef_set_status`, where it neither frees nor claims. */
    method SetStatus(id: nat, status: nat) returns (err: Err)
      requires Valid() && Covered(View(), Op.SetStatus(id, status))
      modifies this
      ensures Valid() && txnActive == old(txnActive) && sbLock == old(sbLock)
      ensures View() == StatusEffect(crc, old(View()), id, status).heap
        && err == StatusEffect(crc, old(View()), id, status).err
      ensures Log() == Logged(txnActive, old(Log()), logSlots, StatusEffect(crc, old(View()), id, status).records)
    {
      StatusSized(crc, View(), id, status);
      NoRecord(Log(), logSlots);
      if id >= |slots| {
        return SlotId;
      }
      if !(status == USED && slots[id].status == USED) {
        StoreStatus(id, status);
      }
      return Ok;
    }

    /** A status is recorded and written. */
    method StoreStatus(id: nat, status: nat)
      requires Valid() && id < |slots| && WellSized(StatusStored(crc, View(), id, status).heap)
      modifies this
      ensures Valid() && txnActive == old(txnActive) && sbLock == old(sbLock)
      ensures View() == StatusStored(crc, old(View()), id, status).heap
      ensures Log() == Logged(txnActive, old(Log()), logSlots, StatusStored(crc, old(View()), id, status).records)
    {
      var prior := slots[id];
      var before := StatusBytes(prior.status, prior.crc);
      var ignored := AppendRecord(SLOT_STATUS, Off(id), 0, before);
      OneRecord(old(Log()), logSlots, SlotRecord(SLOT_STATUS, id, before));
      var s := prior.(status := status);
      slots := slots[id := if HasCrc(status) then Seal(crc, id, s) else s.(crc := 0)];
    }

    /** `ef_write_payload`, where it does not claim. */
    method WritePayload(id: nat, data: seq<Byte>) returns (err: Err)
      requires Valid() && Covered(View(), Op.WritePayload(id, data))
      modifies this
      ensures Valid() && txnActive == old(txnActive) && sbLock == old(sbLock)
      ensures View() == PayloadEffect(crc, old(View()), id, data).heap
        && err == PayloadEffect(crc, old(View()), id, data).err
      ensures Log() == Logged(txnActive, old(Log()), logSlots, PayloadEffect(crc, old(View()), id, data).records)
    {
      PayloadSized(crc, View(), id, data);
      NoRecord(Log(), logSlots);
      if |data| > PAYLOAD_SIZE {
        return PayloadLen;
      }
      if id >= |slots| {
        return SlotId;
      }
      if HasCrc(slots[id].status) && !CrcValid(crc, id, slots[id]) {
        return BadChecksum;
      }
      StorePayload(id, data);
      return Ok;
    }

    /** The first bytes of a payload are recorded, and the payload is written. */
    method StorePayload(id: nat, data: seq<Byte>)
      requires Valid() && id < |slots| && |data| <= PAYLOAD_SIZE && WellSized(PayloadStored(crc, View(), id, data).heap)
      modifies this
      ensures Valid() && txnActive == old(txnActive) && sbLock == old(sbLock)
      ensures View() == PayloadStored(crc, old(View()), id, data).heap
      ensures Log() == Logged(txnActive, old(Log()), logSlots, PayloadStored(crc, old(View()), id, data).records)
    {
      var before := slots[id].payload[..8] + Zeros(4);
      var ignored := AppendRecord(SLOT_PAYLOAD, Off(id), 0, before);
      OneRecord(old(Log()), logSlots, SlotRecord(SLOT_PAYLOAD, id, before));
      slots := slots[id := Seal(crc, id, slots[id].(payload := data + Zeros(PAYLOAD_SIZE - |data|), status := USED))];
    }

    /** The switch of `ef_undo_replay_reverse`. */
    method InvertRecord(rec: Record) returns (err: Err)
      requires Proper(crc) && WellSized(View()) && |rec.before| == 12
      modifies this`slots, this`freeListHead, this`freeCount
      ensures WellSized(View()) && (View(), err) == Invert(crc, old(View()), rec)
    {
      InvertSized(crc, View(), rec);
      var at := At(|slots|, rec.target);
      var id := if at.Slot? then at.id else 0;
      if rec.kind == FREE_COUNT {
        var delta := Signed(rec.aux);
        if delta < 0 && (-delta) % COUNT_SPAN > freeCount {
          freeCount := 0;
        } else {
          freeCount := (freeCount - delta) % COUNT_SPAN;
        }
        return Ok;
      }
      if rec.kind != SLOT_STATUS && rec.kind != SLOT_NEXT && rec.kind != SLOT_PAYLOAD && rec.kind != SLOT_ALLOC
        && rec.kind != SLOT_FREE {
        return Ok;
      }
      if id >= |slots| {
        return SlotId;
      }
      var s := slots[id];
      if rec.kind == SLOT_STATUS {
        s := RestoredStatus(s, rec.before);
      } else if rec.kind == SLOT_NEXT {
        s := Seal(crc, id, s.(next := NextIn(rec.before)));
      } else if rec.kind == SLOT_PAYLOAD {
        s := Seal(crc, id, s.(payload := rec.before[..8] + Tail(s.payload)));
      } else if rec.kind == SLOT_ALLOC {
        s := s.(next := freeListHead, status := FREE, crc := 0);
        freeListHead := Off(id);
      } else {
        s := RestoredFree(crc, id, s, rec.before, rec.aux);
      }
      slots := slots[id := s];
      return Ok;
    }

    /** `ef_undo_replay_reverse`. */
    method ReplayReverse() returns (err: Err)
      requires Mapped()
      modifies this`slots, this`freeListHead, this`freeCount
      ensures Mapped() && (View(), err) == Replay(crc, old(View()), old(Log()))
    {
      err := Ok;
      if headerMagic == 0 {
        return Ok;
      }
      var pos := headerTail;
      ghost var k: nat := headerCount;
      while pos > UNDO_HEADER_SIZE
        invariant Mapped() && k <= |records| && records == old(records)
          && pos == UNDO_HEADER_SIZE + UNDO_RECORD_SIZE * k && err == Ok
        invariant Replay(crc, View(), records[..k]) == Replay(crc, old(View()), old(Log()))
      {
        pos := pos - UNDO_RECORD_SIZE;
        k := k - 1;
        var rec := records[(pos - UNDO_HEADER_SIZE) / UNDO_RECORD_SIZE];
        assert rec == records[k] && records[..k + 1] == records[..k] + [rec];
        ReplayLast(crc, View(), records[..k], rec);
        err := InvertRecord(rec);
        if err != Ok {
          break;
        }
      }
    }

    /** `ef_txn_abort`. */
    method Abort() returns (err: Err)
      requires Valid()
      modifies this
      ensures Valid() && !txnActive && Log() == []
      ensures !old(txnActive) ==> err == Ok && unchanged(this)
      ensures old(txnActive) ==> !sbLock && (View(), err) == Replay(crc, old(View()), old(Log()))
    {
      if !txnActive {
        return Ok;
      }
      txnState := STATE_ABORTING;
      sbState := STATE_ABORTING;
      err := ReplayReverse();
      Leave();
    }

    /**
     `ef_txn_recover_from_stale_lock`, on a handle just opened. A mapping that was left in the middle of an abort is
     not recovered, and nothing is reported.
     */
    method Recover() returns (err: Err)
      requires Mapped()
      requires !txnActive && txnState == STATE_NONE && undoTail == UNDO_HEADER_SIZE && undoRecordCount == 0
      modifies this
      ensures !txnActive && (old(sbState) != STATE_ABORTING ==> Valid())
      ensures old(sbState) != STATE_ACTIVE ==> err == Ok && unchanged(this)
      ensures old(sbState) == STATE_ACTIVE ==> !sbLock && (View(), err) == Replay(crc, old(View()), old(Log()))
    {
      if sbState != STATE_ACTIVE {
        return Ok;
      }
      txnState := STATE_ABORTING;
      err := ReplayReverse();
      Leave();
    }

    /** The loop of `ef_rebuild_free_list`, over slots with any contents. */
    method RelinkFree() returns (count: nat)
      requires |slots| <= MOST_SLOTS
      modifies this`slots, this`freeListHead
      ensures |slots| == |old(slots)| && forall i: nat :: i < |slots| ==> slots[i] == Relinked(old(slots), i)
      ensures freeListHead == FirstOff(FreeFrom(old(slots), 0)) && count == |FreeFrom(old(slots), 0)|
    {
      ghost var was := slots;
      freeListHead := 0;
      count := 0;
      var i := |slots|;
      while i > 0
        invariant 0 <= i <= |was| == |slots|
        invariant freeListHead == FirstOff(FreeFrom(was, i)) && count == |FreeFrom(was, i)|
        invariant forall j: nat :: j < i ==> slots[j] == was[j]
        invariant forall j: nat :: i <= j < |was| ==> slots[j] == Relinked(was, j)
      {
        i := i - 1;
        if slots[i].status == FREE {
          slots := slots[i := slots[i].(next := freeListHead)];
          freeListHead := Off(i);
          count := count + 1;
        }
      }
    }

    /** The loop of `ef_db_refresh_checksums`. */
    method RefreshChecksums()
      modifies this`slots
      ensures |slots| == |old(slots)| && forall i: nat :: i < |slots| ==> slots[i] == Refreshed(crc, i, old(slots)[i])
    {
      ghost var was := slots;
      var i: nat := 0;
      while i < |slots|
        invariant i <= |was| == |slots|
        invariant forall j: nat :: j < i ==> slots[j] == Refreshed(crc, j, was[j])
        invariant forall j: nat :: i <= j < |was| ==> slots[j] == was[j]
      {
        if HasCrc(slots[i].status) {
          slots := slots[i := Seal(crc, i, slots[i])];
        }
        i := i + 1;
      }
    }

    /** `ef_rebuild_free_list`. */
    method RebuildFreeList()
      requires Valid()
      modifies this`slots, this`freeListHead, this`freeCount
      ensures Valid() && Rebuilt(crc, old(View()), View())
    {
      ghost var h := View();
      FreeFromSize(slots, 0);
      var count := RelinkFree();
      freeCount := count % COUNT_SPAN;
      RefreshChecksums();
      StoredIsRebuilt(crc, h, View());
      RebuiltSized(crc, h, View());
    }

    /** The process dies between two operations, and the database is opened again (`ef_db_init_mapped`). */
    method Reopen() returns (err: Err)
      requires Valid()
      modifies this
      ensures Valid() && !txnActive && Log() == []
      ensures !old(txnActive) ==> err == Ok && Rebuilt(crc, old(View()), View())
      ensures old(txnActive) ==>
        var (h, e) := Replay(crc, old(View()), old(Log()));
        err == e && if e == Ok then Rebuilt(crc, h, View()) else View() == h
    {
      txnActive, txnState := false, STATE_NONE;
      undoTail, undoRecordCount := UNDO_HEADER_SIZE, 0;
      err := Recover();
      if err == Ok {
        RebuildFreeList();
      }
    }

    /** A caller's operations, one after the other; results are ignored. */
    method Perform(ops: seq<Op>)
      requires Valid() && txnActive && RunsCovered(crc, View(), ops)
      modifies this
      ensures Valid() && txnActive && sbLock == old(sbLock)
      ensures (View(), Log()) == Run(crc, old(View()), old(Log()), logSlots, ops)
    {
      var rest := ops;
      while rest != []
        invariant Valid() && txnActive && sbLock == old(sbLock) && RunsCovered(crc, View(), rest)
        invariant Run(crc, View(), Log(), logSlots, rest) == Run(crc, old(View()), old(Log()), logSlots, ops)
        decreases |rest|
      {
        UndoExact(crc, View(), rest[0]);
        Step(rest[0]);
        rest := rest[1..];
      }
    }

    method Step(op: Op)
      requires Valid() && txnActive && Covered(View(), op)
      modifies this
      ensures Valid() && txnActive && sbLock == old(sbLock)
      ensures View() == Apply(crc, old(View()), op).heap
      ensures Log() == Append(old(Log()), logSlots, Apply(crc, old(View()), op).records)
    {
      var err: Err;
      match op
      case Alloc(clear) =>
        var id;
        err, id := AllocSlot(clear);
      case SetNext(id, next) => err := SetNextOffset(id, next);
      case SetStatus(id, status) => err := SetStatus(id, status);
      case WritePayload(id, data) => err := WritePayload(id, data);
    }

    /**
     Abort is an exact inverse: a transaction of invertible operations whose records fit the log leaves every slot,
     the free list in its order, and the free count as they were.
     */
    method AbortedTransaction(ops: seq<Op>) returns (err: Err)
      requires Valid() && !txnActive && !sbLock && RunsCovered(crc, View(), ops) && AllInvertible(crc, View(), ops)
      requires RecordsOf(crc, View(), ops) <= logSlots
      modifies this
      ensures Valid() && !txnActive && !sbLock && Log() == [] && err == Ok && View() == old(View())
    {
      err := Begin();
      Perform(ops);
      ReplayIsInverse(crc, old(View()), logSlots, ops);
      err := Abort();
    }

    /**
     Recovery is as good as abort: when the process dies after any number of the operations, opening the database
     again gives the slots as they were, on a rebuilt free list.
     */
    method CrashedTransaction(ops: seq<Op>) returns (err: Err)
      requires Valid() && !txnActive && !sbLock && RunsCovered(crc, View(), ops) && AllInvertible(crc, View(), ops)
      requires RecordsOf(crc, View(), ops) <= logSlots
      modifies this
      ensures Valid() && !txnActive && Log() == [] && err == Ok && Rebuilt(crc, old(View()), View())
    {
      err := Begin();
      Perform(ops);
      ReplayIsInverse(crc, old(View()), logSlots, ops);
      err := Reopen();
    }
  }

  lemma RebuiltSized(c: Checksum, h: Heap, h': Heap)
    requires Proper(c) && WellSized(h) && Rebuilt(c, h, h')
    ensures WellSized(h')
  {
    FreeFromSize(h.slots, 0);
    forall x: nat | x < |h'.slots| ensures Sized(h'.slots[x]) {
      assert SlotKept(c, x, h.slots[x], h'.slots[x]);
    }
  }

  /** Slot `i` of a new database (`ef_build_free_list`). */
  function NewSlot(n: nat, i: nat): Slot
    requires i < n <= MOST_SLOTS
  {
    Slot(FREE, 0, Zeros(PAYLOAD_SIZE), if i + 1 < n then Off(i + 1) else 0)
  }

  lemma FreshIsFree(slots: seq<Slot>, i: nat)
    requires forall x: nat :: x < |slots| ==> slots[x].status == FREE
    ensures FirstOff(FreeFrom(slots, i)) == if i < |slots| then Off(i) else 0
    decreases |slots| - i
  {
  }

  /** Records are appended only inside a transaction. */
  function Logged(active: bool, log: seq<Record>, cap: nat, recs: seq<Record>): seq<Record> {
    if active then Append(log, cap, recs) else log
  }

  lemma NoRecord(log: seq<Record>, cap: nat)
    ensures Append(log, cap, []) == log
  {
  }

  lemma OneRecord(log: seq<Record>, cap: nat, a: Record)
    ensures Append(log, cap, [a]) == AppendOne(log, cap, a)
  {
    assert [a][1..] == [];
    assert Append(AppendOne(log, cap, a), cap, []) == AppendOne(log, cap, a);
  }

  lemma TwoRecords(log: seq<Record>, cap: nat, a: Record, b: Record)
    ensures Append(log, cap, [a, b]) == AppendOne(AppendOne(log, cap, a), cap, b)
  {
    assert [a, b][1..] == [b];
    OneRecord(AppendOne(log, cap, a), cap, b);
  }
}
