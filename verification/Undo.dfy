/**
 The undo log (`src/ef_undo.c`) and what the operations of a transaction append to it (`src/endfields.c`,
 `src/ef_txn.c`), for allocation, link, status and payload changes. Records are bytes, as in the log.
 */
module Undo {
  import opened Base
  import opened Rebuild
  import opened Slots
  import opened Heaps

  const SLOT_ALLOC: nat := 1
  const SLOT_FREE: nat := 2
  const SLOT_STATUS: nat := 3
  const SLOT_NEXT: nat := 4
  const SLOT_PAYLOAD: nat := 5
  const FREE_COUNT: nat := 10

  /** One record of 32 bytes; `before` has 12. */
  datatype Record = Record(kind: nat, target: Word, aux: Word, before: seq<Byte>)

  /** Slots as they are in memory: 32-bit status and checksum, 48 bytes of payload. */
  predicate Sized(s: Slot) {
    s.status < Span(4) && s.crc < Span(4) && |s.payload| == PAYLOAD_SIZE
  }

  predicate WellSized(h: Heap) {
    && |h.slots| <= MOST_SLOTS && h.freeCount < COUNT_SPAN
    && forall x: nat :: x < |h.slots| ==> Sized(h.slots[x])
  }

  // ---------- Replay ----------

  /** The slot that a record is about; one without a slot stands for slot 0. */
  function TargetOf(n: nat, rec: Record): nat {
    match At(n, rec.target)
    case Slot(id) => id
    case Bad(_) => 0
  }

  /** A two's complement 64-bit number. */
  function Signed(w: Word): int {
    if w < 0x8000_0000_0000_0000 then w else w - WORD
  }

  /** `ef_undo_restore_slot_status`. */
  function RestoredStatus(s: Slot, before: seq<Byte>): Slot
    requires |before| == 12
  {
    var status := Number(before[..4]);
    s.(status := status, crc := if HasCrc(status) then Number(before[4..8]) else 0)
  }

  function NextIn(before: seq<Byte>): (r: Word)
    requires |before| == 12
  {
    NumberFits(before[..8]);
    Spans();
    Number(before[..8])
  }

  lemma {:induction false} NumberFits(s: seq<Byte>)
    ensures Number(s) < Span(|s|)
  {
    if s != [] {
      NumberFits(s[1..]);
    }
  }

  /** `ef_undo_restore_slot_free`. */
  function RestoredFree(c: Checksum, id: nat, s: Slot, before: seq<Byte>, aux: Word): Slot
    requires |before| == 12
  {
    var s' := s.(next := NextIn(before), status := aux % COUNT_SPAN);
    if HasCrc(s'.status) then Seal(c, id, s') else s'.(crc := 0)
  }

  /** The inverse of a change of the free count by `delta`, which does not go below zero. */
  function RestoredCount(count: nat, delta: int): nat {
    if delta < 0 && (-delta) % COUNT_SPAN > count then 0 else (count - delta) % COUNT_SPAN
  }

  /** The body of the loop of `ef_undo_replay_reverse`, for the kinds above; other kinds do nothing here. */
  function Invert(c: Checksum, h: Heap, rec: Record): (Heap, Err)
    requires |h.slots| <= MOST_SLOTS && |rec.before| == 12
  {
    var id := TargetOf(|h.slots|, rec);
    if rec.kind == FREE_COUNT then (h.(freeCount := RestoredCount(h.freeCount, Signed(rec.aux))), Ok)
    else if rec.kind != SLOT_STATUS && rec.kind != SLOT_NEXT && rec.kind != SLOT_PAYLOAD && rec.kind != SLOT_ALLOC
         && rec.kind != SLOT_FREE then (h, Ok)
    else if id >= |h.slots| then (h, SlotId)
    else
      var s := h.slots[id];
      if rec.kind == SLOT_STATUS then (h.(slots := h.slots[id := RestoredStatus(s, rec.before)]), Ok)
      else if rec.kind == SLOT_NEXT then (h.(slots := h.slots[id := Seal(c, id, s.(next := NextIn(rec.before)))]), Ok)
      else if rec.kind == SLOT_PAYLOAD then
        (h.(slots := h.slots[id := Seal(c, id, s.(payload := rec.before[..8] + Tail(s.payload)))]), Ok)
      else if rec.kind == SLOT_ALLOC then
        (h.(slots := h.slots[id := s.(next := h.freeHead, status := FREE, crc := 0)], freeHead := Off(id)), Ok)
      else (h.(slots := h.slots[id := RestoredFree(c, id, s, rec.before, rec.aux)]), Ok)
  }

  /** The payload past its first eight bytes. */
  function Tail(payload: seq<Byte>): seq<Byte> {
    if |payload| <= 8 then [] else payload[8..]
  }

  predicate Records(log: seq<Record>) {
    forall i: nat :: i < |log| ==> |log[i].before| == 12
  }

  lemma InvertKeepsSize(c: Checksum, h: Heap, rec: Record)
    requires |h.slots| <= MOST_SLOTS && |rec.before| == 12
    ensures |Invert(c, h, rec).0.slots| == |h.slots|
  {
  }

  /** `ef_undo_replay_reverse`: the last record first, up to the first failure. */
  function Replay(c: Checksum, h: Heap, log: seq<Record>): (Heap, Err)
    requires |h.slots| <= MOST_SLOTS && Records(log)
    decreases |log|
  {
    if log == [] then (h, Ok)
    else
      var (h', err) := Invert(c, h, log[|log| - 1]);
      InvertKeepsSize(c, h, log[|log| - 1]);
      if err != Ok then (h', err) else Replay(c, h', log[..|log| - 1])
  }

  // ---------- The operations ----------

  datatype Op =
    | Alloc(clear: bool)
    | SetNext(id: nat, next: Word)
    | SetStatus(id: nat, status: nat)
    | WritePayload(id: nat, data: seq<Byte>)

  /** The new heap, the records of the change in the order of their appending, and the result. */
  datatype Effect = Effect(heap: Heap, records: seq<Record>, err: Err)

  function StatusBytes(status: nat, crc: nat): (r: seq<Byte>)
    ensures |r| == 12
  {
    LittleEndian(status, 4) + LittleEndian(crc, 4) + Zeros(4)
  }

  function NextBytes(next: Word): (r: seq<Byte>)
    ensures |r| == 12
  {
    LittleEndian(next, 8) + Zeros(4)
  }

  function SlotRecord(kind: nat, id: nat, before: seq<Byte>): Record
    requires id < MOST_SLOTS
  {
    Record(kind, Off(id), 0, before)
  }

  function CountRecord(delta: int): Record {
    Record(FREE_COUNT, 0, delta % WORD, Zeros(12))
  }

  /** The change that `ef_alloc_slot_ex` makes. Its record of the checksum is taken after the slot has been written. */
  function AllocStored(c: Checksum, h: Heap, id: nat, clear: bool): Effect
    requires id < |h.slots| <= MOST_SLOTS
  {
    var h' := Taken(c, h, id, clear);
    Effect(h', [SlotRecord(SLOT_ALLOC, id, StatusBytes(FREE, h'.slots[id].crc)), CountRecord(-1)], Ok)
  }

  /** `ef_alloc_slot_ex`. */
  function AllocEffect(c: Checksum, h: Heap, clear: bool): Effect
    requires |h.slots| <= MOST_SLOTS
  {
    if h.freeHead == 0 || h.freeCount == 0 then Effect(h, [], SlotFull)
    else if h.freeHead >= ExpectedSize(|h.slots|) then Effect(h, [], Offset)
    else
      match At(|h.slots|, h.freeHead)
      case Bad(err) => Effect(h, [], err)
      case Slot(id) =>
        NamesOff(|h.slots|, h.freeHead);
        AllocStored(c, h, id, clear)
  }

  /** `ef_slot_has_overflow_chain`. */
  predicate HasOverflow(h: Heap, s: Slot) {
    s.next != 0 &&
    match At(|h.slots|, s.next)
    case Bad(_) => false
    case Slot(id) => id < |h.slots| && h.slots[id].status == OVERFLOW
  }

  /** The change that `ef_set_next_offset` makes. */
  function NextStored(c: Checksum, h: Heap, id: nat, next: Word): Effect
    requires id < |h.slots| <= MOST_SLOTS
  {
    var s := h.slots[id];
    Effect(h.(slots := h.slots[id := Seal(c, id, s.(next := next))]),
           if s.next != next then [SlotRecord(SLOT_NEXT, id, NextBytes(s.next))] else [], Ok)
  }

  /** `ef_set_next_offset`. */
  function NextEffect(c: Checksum, h: Heap, id: nat, next: Word): Effect
    requires |h.slots| <= MOST_SLOTS
  {
    if id >= |h.slots| then Effect(h, [], SlotId)
    else
      var s := h.slots[id];
      if HasCrc(s.status) && !CrcValid(c, id, s) then Effect(h, [], BadChecksum)
      else if s.status != USED then Effect(h, [], SlotFree)
      else if HasOverflow(h, s) then Effect(h, [], SlotBusy)
      else if next != 0 && At(|h.slots|, next).Bad? then Effect(h, [], At(|h.slots|, next).err)
      else NextStored(c, h, id, next)
  }

  /** The change that `ef_set_status` makes. */
  function StatusStored(c: Checksum, h: Heap, id: nat, status: nat): Effect
    requires id < |h.slots| <= MOST_SLOTS
  {
    var s := h.slots[id];
    var s' := s.(status := status);
    Effect(h.(slots := h.slots[id := if HasCrc(status) then Seal(c, id, s') else s'.(crc := 0)]),
           [SlotRecord(SLOT_STATUS, id, StatusBytes(s.status, s.crc))], Ok)
  }

  /** `ef_set_status`, where it neither frees nor claims. */
  function StatusEffect(c: Checksum, h: Heap, id: nat, status: nat): Effect
    requires |h.slots| <= MOST_SLOTS && status != FREE
  {
    if id >= |h.slots| then Effect(h, [], SlotId)
    else if status == USED && h.slots[id].status == USED then Effect(h, [], Ok)
    else StatusStored(c, h, id, status)
  }

  /** The change that `ef_write_payload` makes. */
  function PayloadStored(c: Checksum, h: Heap, id: nat, data: seq<Byte>): Effect
    requires id < |h.slots| <= MOST_SLOTS && |h.slots[id].payload| == PAYLOAD_SIZE && |data| <= PAYLOAD_SIZE
  {
    var s := h.slots[id];
    Effect(h.(slots := h.slots[id := Seal(c, id, s.(payload := data + Zeros(PAYLOAD_SIZE - |data|), status := USED))]),
           [SlotRecord(SLOT_PAYLOAD, id, s.payload[..8] + Zeros(4))], Ok)
  }

  /** `ef_write_payload`, where it does not claim. */
  function PayloadEffect(c: Checksum, h: Heap, id: nat, data: seq<Byte>): Effect
    requires |h.slots| <= MOST_SLOTS && (id < |h.slots| ==> |h.slots[id].payload| == PAYLOAD_SIZE)
  {
    if |data| > PAYLOAD_SIZE then Effect(h, [], PayloadLen)
    else if id >= |h.slots| then Effect(h, [], SlotId)
    else if HasCrc(h.slots[id].status) && !CrcValid(c, id, h.slots[id]) then Effect(h, [], BadChecksum)
    else PayloadStored(c, h, id, data)
  }

  /** The operations of this part: none that frees a slot, or claims one that is free. */
  predicate Covered(h: Heap, op: Op) {
    match op
    case Alloc(_) => true
    case SetNext(_, _) => true
    case SetStatus(id, status) =>
      status != FREE && status < Span(4) && (status == USED && id < |h.slots| ==> h.slots[id].status != FREE)
    case WritePayload(id, data) => |data| <= PAYLOAD_SIZE && id < |h.slots| ==> h.slots[id].status != FREE
  }

  function Apply(c: Checksum, h: Heap, op: Op): Effect
    requires WellSized(h) && Covered(h, op)
  {
    match op
    case Alloc(clear) => AllocEffect(c, h, clear)
    case SetNext(id, next) => NextEffect(c, h, id, next)
    case SetStatus(id, status) => StatusEffect(c, h, id, status)
    case WritePayload(id, data) => PayloadEffect(c, h, id, data)
  }

  /**
   When undoing an operation is exact, in terms of the state before it: an allocation must leave a slot on the free
   list and must have taken a clean free slot; a status without a checksum must not have had one; a payload write
   must find a used slot and leave the bytes past the eighth as they are.
   */
  predicate Invertible(c: Checksum, h: Heap, op: Op)
    requires WellSized(h) && Covered(h, op)
  {
    Apply(c, h, op).records == [] ||
    match op
    case Alloc(clear) =>
      var s := h.slots[At(|h.slots|, h.freeHead).id];
      h.freeCount >= 2 && s.status == FREE && s.crc == 0 && (clear ==> s.payload == Zeros(PAYLOAD_SIZE))
    case SetNext(_, _) => true
    case SetStatus(id, _) => HasCrc(h.slots[id].status) || h.slots[id].crc == 0
    case WritePayload(id, data) =>
      h.slots[id].status == USED && Tail(data + Zeros(PAYLOAD_SIZE - |data|)) == Tail(h.slots[id].payload)
  }

  // ---------- What the operations do ----------

  ghost predicate CrcSound(c: Checksum, h: Heap) {
    forall x: nat :: x < |h.slots| ==> CrcValid(c, x, h.slots[x])
  }

  /** The slot that an operation is about: for an allocation, the first on the free list. */
  function Subject(h: Heap, op: Op): nat {
    match op
    case Alloc(_) => TargetOf(|h.slots|, Record(SLOT_ALLOC, h.freeHead, 0, []))
    case SetNext(id, _) => id
    case SetStatus(id, _) => id
    case WritePayload(id, _) => id
  }

  /** What a caller finds in the slot after the operation has succeeded. */
  ghost predicate Shows(op: Op, s: Slot, s': Slot)
    requires |s'.payload| == PAYLOAD_SIZE
  {
    match op
    case Alloc(clear) => s'.status == USED && s'.next == 0
      && s'.payload == if clear then Zeros(PAYLOAD_SIZE) else s.payload
    case SetNext(_, next) => s'.next == next && s'.status == s.status && s'.payload == s.payload
    case SetStatus(_, status) => s'.status == status && s'.next == s.next && s'.payload == s.payload
    case WritePayload(_, data) =>
      && s'.status == USED && s'.next == s.next && |data| <= PAYLOAD_SIZE
      && s'.payload[..|data|] == data && forall i: nat :: |data| <= i < PAYLOAD_SIZE ==> s'.payload[i] == 0
  }

  /**
   An operation that fails changes and records nothing. One that succeeds changes its slot alone, as asked, and
   leaves a good checksum there unless it has changed nothing.
   */
  ghost predicate Means(c: Checksum, h: Heap, op: Op, e: Effect) {
    var id := Subject(h, op);
    && (e.err != Ok ==> e.heap == h && e.records == [])
    && (e.err == Ok ==>
          && id < |h.slots| == |e.heap.slots| && e.heap.slots == h.slots[id := e.heap.slots[id]]
          && |e.heap.slots[id].payload| == PAYLOAD_SIZE && Shows(op, h.slots[id], e.heap.slots[id])
          && (CrcValid(c, id, e.heap.slots[id]) || (e.heap == h && e.records == [])))
    && (!op.Alloc? ==> e.heap.freeHead == h.freeHead && e.heap.freeCount == h.freeCount)
    && (op.Alloc? && e.err == Ok ==>
          h.freeHead == Off(id) && e.heap.freeHead == h.slots[id].next && e.heap.freeCount == h.freeCount - 1)
  }

  lemma AllocMeans(c: Checksum, h: Heap, clear: bool)
    requires Proper(c) && WellSized(h)
    ensures Means(c, h, Alloc(clear), AllocEffect(c, h, clear))
  {
    if At(|h.slots|, h.freeHead).Slot? {
      NamesOff(|h.slots|, h.freeHead);
    }
  }

  lemma StatusMeans(c: Checksum, h: Heap, id: nat, status: nat)
    requires Proper(c) && WellSized(h) && Covered(h, SetStatus(id, status))
    ensures Means(c, h, SetStatus(id, status), StatusEffect(c, h, id, status))
  {
    if id < |h.slots| {
      assert h.slots == h.slots[id := h.slots[id]];
    }
  }

  lemma PayloadMeans(c: Checksum, h: Heap, id: nat, data: seq<Byte>)
    requires Proper(c) && WellSized(h) && Covered(h, WritePayload(id, data))
    ensures Means(c, h, WritePayload(id, data), PayloadEffect(c, h, id, data))
  {
    if |data| <= PAYLOAD_SIZE {
      var p := data + Zeros(PAYLOAD_SIZE - |data|);
      assert p[..|data|] == data;
    }
  }

  /** What each operation does to the slots and the free list; and good checksums everywhere stay good. */
  lemma ApplyMeans(c: Checksum, h: Heap, op: Op)
    requires Proper(c) && WellSized(h) && Covered(h, op)
    ensures Means(c, h, op, Apply(c, h, op))
    ensures CrcSound(c, h) ==> CrcSound(c, Apply(c, h, op).heap)
  {
    match op
    case Alloc(clear) => AllocMeans(c, h, clear);
    case SetNext(_, _) =>
    case SetStatus(id, status) => StatusMeans(c, h, id, status);
    case WritePayload(id, data) => PayloadMeans(c, h, id, data);
  }

  // ---------- When they succeed ----------

  /** A slot that links to an overflow slot. */
  ghost predicate Chained(h: Heap, s: Slot) {
    exists id: nat :: id < |h.slots| && s.next == 64 + 64 * id && h.slots[id].status == 2
  }

  /** An allocation succeeds if and only if the list head names a slot and the count is not zero. */
  lemma AllocOutcome(c: Checksum, h: Heap, clear: bool)
    requires |h.slots| <= MOST_SLOTS
    ensures var err, n, head := AllocEffect(c, h, clear).err, |h.slots|, h.freeHead;
      var empty := head == 0 || h.freeCount == 0;
      && (err == Ok <==> h.freeCount != 0 && NamesSlot(n, head))
      && (err == SlotFull <==> empty)
      && (err == Offset <==> !empty && (OffGrid(head) || head >= 131168 + 64 * n))
      && (err == SlotId <==> !empty && !OffGrid(head) && !NamesSlot(n, head) && head < 131168 + 64 * n)
  {
    AtOutcome(|h.slots|, h.freeHead);
  }

  /** A link change needs a used slot with a good checksum and no overflow chain, and a link that names a slot. */
  lemma NextOutcome(c: Checksum, h: Heap, id: nat, next: Word)
    requires |h.slots| <= MOST_SLOTS
    ensures var err, n := NextEffect(c, h, id, next).err, |h.slots|;
      if id >= n then err == SlotId
      else
        var s := h.slots[id];
        var open := CrcValid(c, id, s) && s.status == 1 && !Chained(h, s);
        && (err == BadChecksum <==> !CrcValid(c, id, s))
        && (err == SlotFree <==> CrcValid(c, id, s) && s.status != 1)
        && (err == SlotBusy <==> CrcValid(c, id, s) && s.status == 1 && Chained(h, s))
        && (err == Ok <==> open && (next == 0 || NamesSlot(n, next)))
        && (err == Offset <==> open && next != 0 && OffGrid(next))
        && (err == SlotId <==> open && !OffGrid(next) && !NamesSlot(n, next))
  {
    AtOutcome(|h.slots|, next);
    if id < |h.slots| {
      AtOutcome(|h.slots|, h.slots[id].next);
    }
  }

  /** A status change needs a slot, and nothing else. */
  lemma StatusOutcome(c: Checksum, h: Heap, id: nat, status: nat)
    requires |h.slots| <= MOST_SLOTS && Covered(h, SetStatus(id, status))
    ensures var e := StatusEffect(c, h, id, status);
      && e.err == (if id < |h.slots| then Ok else SlotId)
      && (e.records == [] <==> id >= |h.slots| || (status == 1 && h.slots[id].status == 1))
  {
  }

  /** A payload write needs a slot with a good checksum, and at most 48 bytes. */
  lemma PayloadOutcome(c: Checksum, h: Heap, id: nat, data: seq<Byte>)
    requires |h.slots| <= MOST_SLOTS && (id < |h.slots| ==> |h.slots[id].payload| == 48)
    ensures var err := PayloadEffect(c, h, id, data).err;
      && (err == PayloadLen <==> |data| > 48)
      && (err == SlotId <==> |data| <= 48 && id >= |h.slots|)
      && (err == BadChecksum <==> |data| <= 48 && id < |h.slots| && !CrcValid(c, id, h.slots[id]))
      && (err == Ok <==> |data| <= 48 && id < |h.slots| && CrcValid(c, id, h.slots[id]))
  {
  }

  // ---------- What one record undoes ----------

  /** A 64-bit number as its eight bytes. */
  lemma EightBytes(before: seq<Byte>)
    requires |before| == 12
    ensures var d: seq<int> := before;
      NextIn(before) == d[0] + 256 * (d[1] + 256 * (d[2] + 256 * (d[3]
                          + 256 * (d[4] + 256 * (d[5] + 256 * (d[6] + 256 * d[7]))))))
  {
    NumberOfEight(before[..8]);
  }

  /** Records of these kinds are about a slot. */
  predicate AboutSlot(rec: Record) {
    1 <= rec.kind <= 5
  }

  /** What the replay of one record makes of its slot. */
  ghost predicate SlotUndone(c: Checksum, rec: Record, x: nat, s: Slot, s': Slot, head: nat)
    requires |rec.before| == 12 && |s.payload| == 48
  {
    if rec.kind == 1 then s'.next == head && s' == s.(status := 0, crc := 0, next := s'.next)
    else if rec.kind == 2 then
      s'.status == rec.aux % 0x1_0000_0000 && s'.next == NextIn(rec.before) && s'.payload == s.payload
      && CrcValid(c, x, s')
    else if rec.kind == 3 then
      s'.status == Number(rec.before[..4]) && s'.next == s.next && s'.payload == s.payload
      && s'.crc == if InUse(s'.status) then Number(rec.before[4..8]) else 0
    else if rec.kind == 4 then
      s'.next == NextIn(rec.before) && s'.status == s.status && s'.payload == s.payload && CrcValid(c, x, s')
    else
      s'.next == s.next && s'.status == s.status && CrcValid(c, x, s')
      && |s'.payload| == 48 && s'.payload[..8] == rec.before[..8] && s'.payload[8..] == s.payload[8..]
  }

  /** Slot `x` alone comes to be `s`. */
  ghost predicate SlotBecomes(h: Heap, h': Heap, x: nat, s: Slot) {
    x < |h.slots| && h'.slots == h.slots[x := s]
  }

  /**
   What the replay of one record does to any heap. A target that names no slot stands for slot 0. A payload comes
   back in its first eight bytes; link, payload and free records leave a good checksum; none but the record of an
   allocation touches the list head, and none but that of a count the free count.
   */
  lemma InvertMeans(c: Checksum, h: Heap, rec: Record)
    requires Proper(c) && WellSized(h) && |rec.before| == 12
    ensures var (h', err) := Invert(c, h, rec);
      var x := if exists id: nat :: id < |h.slots| && rec.target == 64 + 64 * id then (rec.target - 64) / 64 else 0;
      && (err == Ok <==> !AboutSlot(rec) || h.slots != []) && (err != Ok ==> err == SlotId && h' == h)
      && h'.queueHead == h.queueHead && h'.queueTail == h.queueTail
      && (rec.kind != 10 ==> h'.freeCount == h.freeCount)
      && (rec.kind == 10 ==> h' == h.(freeCount := h'.freeCount))
      && (rec.kind != 1 ==> h'.freeHead == h.freeHead)
      && (!AboutSlot(rec) ==> h'.slots == h.slots)
      && (AboutSlot(rec) && err == Ok ==>
            && x < |h.slots| == |h'.slots| && SlotBecomes(h, h', x, h'.slots[x])
            && SlotUndone(c, rec, x, h.slots[x], h'.slots[x], h.freeHead)
            && (rec.kind == 1 ==> h'.freeHead == 64 + 64 * x))
  {
    AtOutcome(|h.slots|, rec.target);
    InvertKeepsSize(c, h, rec);
  }

  /** A count that rose by one goes down by one; a count of zero wraps around. One that fell rises, if it can. */
  lemma CountMeans(c: Checksum, h: Heap, up: Record, down: Record)
    requires WellSized(h) && up == Record(10, 0, 1, Zeros(12))
    requires down == Record(10, 0, 0xFFFF_FFFF_FFFF_FFFF, Zeros(12))
    ensures Invert(c, h, up).0.freeCount == if h.freeCount > 0 then h.freeCount - 1 else 0xFFFF_FFFF
    ensures Invert(c, h, down).0.freeCount
         == if h.freeCount == 0 then 0 else if h.freeCount < 0xFFFF_FFFF then h.freeCount + 1 else 0
  {
  }

  /** The records of each operation, as they are in the log. */
  lemma RecordsInLog(c: Checksum, h: Heap, op: Op)
    requires WellSized(h) && Covered(h, op)
    ensures var e, x := Apply(c, h, op), Subject(h, op);
      e.records == [] || (x < |h.slots| && x < |e.heap.slots| &&
        var s := h.slots[x];
        match op
        case Alloc(_) => e.records
          == [Record(1, 64 + 64 * x, 0, Zeros(4) + LittleEndian(e.heap.slots[x].crc, 4) + Zeros(4)),
              Record(10, 0, 0xFFFF_FFFF_FFFF_FFFF, Zeros(12))]
        case SetNext(_, next) => next != s.next
          && e.records == [Record(4, 64 + 64 * x, 0, LittleEndian(s.next, 8) + Zeros(4))]
        case SetStatus(_, _) => e.records
          == [Record(3, 64 + 64 * x, 0, LittleEndian(s.status, 4) + LittleEndian(s.crc, 4) + Zeros(4))]
        case WritePayload(_, _) => e.records == [Record(5, 64 + 64 * x, 0, s.payload[..8] + Zeros(4))])
    ensures Apply(c, h, op).err == Ok && Apply(c, h, op).records == [] ==>
      || (op.SetStatus? && op.status == 1 && h.slots[op.id].status == 1)
      || (op.SetNext? && h.slots[op.id].next == op.next)
  {
    AtOutcome(|h.slots|, h.freeHead);
    if op.Alloc? {
      assert LittleEndian(0, 4) == Zeros(4) by {
        assert LittleEndian(0, 2) == [0, 0];
      }
    }
  }

  /**
   Undoing the two records of `ef_free_slot`: whatever slot was given back, its status and its link return with a
   good checksum, its payload stays empty, the list head stays, and the count is as before.
   */
  lemma UndoFree(c: Checksum, h: Heap, x: nat)
    requires Proper(c) && WellSized(h) && x < |h.slots|
    ensures var s := h.slots[x];
      var log := [Record(2, 64 + 64 * x, s.status, LittleEndian(s.next, 8) + Zeros(4)), Record(10, 0, 1, Zeros(12))];
      && |h.slots| == |Given(h, x).slots| && Records(log)
      && var (h', err) := Replay(c, Given(h, x), log);
      && err == Ok && |h'.slots| == |h.slots| && SlotBecomes(h, h', x, h'.slots[x])
      && h'.slots[x].status == s.status && h'.slots[x].next == s.next && CrcValid(c, x, h'.slots[x])
      && h'.slots[x].payload == Zeros(48)
      && h'.freeHead == 64 + 64 * x && h'.freeCount == h.freeCount
      && h'.queueHead == h.queueHead && h'.queueTail == h.queueTail
  {
    var s, g := h.slots[x], Given(h, x);
    var a, b := Record(2, 64 + 64 * x, s.status, NextBytes(s.next)), Record(10, 0, 1, Zeros(12));
    assert [a] + [b] == [a, b];
    ReplayLast(c, g, [a], b);
    CountMeans(c, g, b, b.(aux := 0xFFFF_FFFF_FFFF_FFFF));
    ReplayOne(c, Invert(c, g, b).0, a);
    InvertMeans(c, Invert(c, g, b).0, a);
    assert a.target == 64 + 64 * x;
    NextBack(s.next);
    assert g.slots[x := Replay(c, g, [a, b]).0.slots[x]] == h.slots[x := Replay(c, g, [a, b]).0.slots[x]];
  }

  /**
   And so an abort after `ef_free_slot` never leaves a sound heap, whatever it was before: the list head is left on a
   slot that is not free.
   */
  lemma UndoneFreeIsUnsound(c: Checksum, h: Heap, x: nat, sh: Shape)
    requires Proper(c) && WellSized(h) && x < |h.slots| && h.slots[x].status != FREE
    ensures var s := h.slots[x];
      var log := [Record(2, 64 + 64 * x, s.status, LittleEndian(s.next, 8) + Zeros(4)), Record(10, 0, 1, Zeros(12))];
      && |Given(h, x).slots| <= MOST_SLOTS && Records(log)
      && !Fits(c, Replay(c, Given(h, x), log).0, sh)
  {
    UndoFree(c, h, x);
    var s := h.slots[x];
    var log := [Record(2, 64 + 64 * x, s.status, LittleEndian(s.next, 8) + Zeros(4)), Record(10, 0, 1, Zeros(12))];
    var h' := Replay(c, Given(h, x), log).0;
    if Fits(c, h', sh) {
      HeadIsFree(c, h', sh, x);
    }
  }

  lemma HeadIsFree(c: Checksum, h: Heap, sh: Shape, x: nat)
    requires Fits(c, h, sh) && h.freeHead == Off(x)
    ensures x < |h.slots| && h.slots[x].status == FREE
  {
    Open(c, h, sh);
    assert sh.free != [] && sh.free[0] in sh.free && Off(sh.free[0]) == Off(x);
    assert OnePlace(sh.place, x, InFree) && SlotOk(c, sh, x, h.slots[x]);
  }

  // ---------- Sizes are kept ----------

  lemma AllocSized(c: Checksum, h: Heap, clear: bool)
    requires Proper(c) && WellSized(h)
    ensures WellSized(AllocEffect(c, h, clear).heap)
  {
  }

  lemma NextSized(c: Checksum, h: Heap, id: nat, next: Word)
    requires Proper(c) && WellSized(h)
    ensures WellSized(NextEffect(c, h, id, next).heap)
  {
  }

  lemma StatusSized(c: Checksum, h: Heap, id: nat, status: nat)
    requires Proper(c) && WellSized(h) && FREE != status < Span(4)
    ensures WellSized(StatusEffect(c, h, id, status).heap)
  {
  }

  lemma PayloadSized(c: Checksum, h: Heap, id: nat, data: seq<Byte>)
    requires Proper(c) && WellSized(h)
    ensures WellSized(PayloadEffect(c, h, id, data).heap)
  {
    Spans();
  }

  lemma InvertSized(c: Checksum, h: Heap, rec: Record)
    requires Proper(c) && WellSized(h) && |rec.before| == 12
    ensures WellSized(Invert(c, h, rec).0)
  {
    NumberFits(rec.before[..4]);
    NumberFits(rec.before[4..8]);
    Spans();
  }

  // ---------- Undoing one operation ----------

  lemma ReplayOne(c: Checksum, h: Heap, rec: Record)
    requires |h.slots| <= MOST_SLOTS && |rec.before| == 12
    ensures Replay(c, h, [rec]) == Invert(c, h, rec)
  {
    InvertKeepsSize(c, h, rec);
    assert [rec][..0] == [];
    assert Replay(c, Invert(c, h, rec).0, []) == (Invert(c, h, rec).0, Ok);
  }

  lemma ReplayLast(c: Checksum, h: Heap, log: seq<Record>, rec: Record)
    requires |h.slots| <= MOST_SLOTS && Records(log) && |rec.before| == 12
    ensures Records(log + [rec]) && |Invert(c, h, rec).0.slots| == |h.slots|
    ensures Replay(c, h, log + [rec])
         == if Invert(c, h, rec).1 != Ok then Invert(c, h, rec) else Replay(c, Invert(c, h, rec).0, log)
  {
    InvertKeepsSize(c, h, rec);
    assert (log + [rec])[..|log|] == log;
  }

  lemma StatusBack(status: nat, crc: nat)
    requires status < Span(4) && crc < Span(4)
    ensures Number(StatusBytes(status, crc)[..4]) == status && Number(StatusBytes(status, crc)[4..8]) == crc
  {
    var b := StatusBytes(status, crc);
    assert b[..4] == LittleEndian(status, 4);
    assert b[4..8] == LittleEndian(crc, 4);
    BytesRoundTrip(status, 4);
    BytesRoundTrip(crc, 4);
  }

  lemma NextBack(next: Word)
    ensures NextIn(NextBytes(next)) == next
  {
    assert NextBytes(next)[..8] == LittleEndian(next, 8);
    Spans();
    BytesRoundTrip(next, 8);
  }

  lemma PayloadBack(payload: seq<Byte>, payload': seq<Byte>)
    requires |payload| == PAYLOAD_SIZE && |payload'| == PAYLOAD_SIZE
    ensures (payload[..8] + Zeros(4))[..8] + Tail(payload') == payload <==> Tail(payload') == Tail(payload)
  {
    assert (payload[..8] + Zeros(4))[..8] == payload[..8];
    assert payload == payload[..8] + Tail(payload);
    assert (payload[..8] + Tail(payload'))[8..] == Tail(payload');
  }

  lemma TargetBack(n: nat, kind: nat, id: nat, before: seq<Byte>)
    requires id < n <= MOST_SLOTS
    ensures TargetOf(n, SlotRecord(kind, id, before)) == id
  {
    OffNames(n, id);
  }

  lemma UndoNext(c: Checksum, h: Heap, id: nat, next: Word)
    requires Proper(c) && WellSized(h)
    ensures var e := NextEffect(c, h, id, next);
      WellSized(e.heap) && Records(e.records) && Replay(c, e.heap, e.records) == (h, Ok)
  {
    var e := NextEffect(c, h, id, next);
    if e.err == Ok {
      var s := h.slots[id];
      assert Seal(c, id, s) == s;
      if e.records != [] {
        ReplayOne(c, e.heap, e.records[0]);
        TargetBack(|h.slots|, SLOT_NEXT, id, NextBytes(s.next));
        NextBack(s.next);
        assert e.heap.slots[id].(next := s.next).(crc := s.crc) == s;
        assert e.heap.slots[id := s] == h.slots;
      } else {
        assert e.heap.slots == h.slots;
      }
    }
  }

  lemma UndoStatus(c: Checksum, h: Heap, id: nat, status: nat)
    requires Proper(c) && WellSized(h) && Covered(h, SetStatus(id, status))
    ensures var e := StatusEffect(c, h, id, status);
      && WellSized(e.heap) && Records(e.records)
      && (Replay(c, e.heap, e.records) == (h, Ok) <==> Invertible(c, h, SetStatus(id, status)))
  {
    var e := StatusEffect(c, h, id, status);
    if e.records != [] {
      var s := h.slots[id];
      ReplayOne(c, e.heap, e.records[0]);
      TargetBack(|h.slots|, SLOT_STATUS, id, StatusBytes(s.status, s.crc));
      StatusBack(s.status, s.crc);
      OneSlotBack(h, e.heap, id, RestoredStatus(e.heap.slots[id], e.records[0].before));
    }
  }

  /** Putting slot `id` back gives the old heap if and only if it is the old slot. */
  lemma OneSlotBack(h: Heap, h': Heap, id: nat, s: Slot)
    requires id < |h.slots| && |h'.slots| == |h.slots| && h' == h.(slots := h.slots[id := h'.slots[id]])
    ensures h'.(slots := h'.slots[id := s]) == h <==> s == h.slots[id]
  {
    assert h'.slots[id := s] == h.slots[id := s];
    assert h.slots[id := h.slots[id]] == h.slots;
    assert h.slots[id := s][id] == s;
  }

  lemma UndoPayload(c: Checksum, h: Heap, id: nat, data: seq<Byte>)
    requires Proper(c) && WellSized(h) && Covered(h, WritePayload(id, data))
    ensures var e := PayloadEffect(c, h, id, data);
      && WellSized(e.heap) && Records(e.records)
      && (Replay(c, e.heap, e.records) == (h, Ok) <==> Invertible(c, h, WritePayload(id, data)))
  {
    var e := PayloadEffect(c, h, id, data);
    if e.records != [] {
      var s, s' := h.slots[id], e.heap.slots[id];
      ReplayOne(c, e.heap, e.records[0]);
      TargetBack(|h.slots|, SLOT_PAYLOAD, id, s.payload[..8] + Zeros(4));
      PayloadBack(s.payload, s'.payload);
      OneSlotBack(h, e.heap, id, Seal(c, id, s'.(payload := e.records[0].before[..8] + Tail(s'.payload))));
    }
  }

  lemma CountBack(count: nat)
    requires 0 < count < COUNT_SPAN
    ensures Signed(CountRecord(-1).aux) == -1
    ensures RestoredCount((count + COUNT_SPAN - 1) % COUNT_SPAN, -1) == count <==> count >= 2
  {
  }

  lemma ReplayAlloc(c: Checksum, h: Heap, id: nat, before: seq<Byte>)
    requires id < |h.slots| <= MOST_SLOTS && |before| == 12
    ensures Records([SlotRecord(SLOT_ALLOC, id, before), CountRecord(-1)])
    ensures Replay(c, h, [SlotRecord(SLOT_ALLOC, id, before), CountRecord(-1)])
         == (h.(freeCount := RestoredCount(h.freeCount, -1),
                slots := h.slots[id := h.slots[id].(next := h.freeHead, status := FREE, crc := 0)],
                    freeHead := Off(id)), Ok)
  {
    var a := SlotRecord(SLOT_ALLOC, id, before);
    var h1 := h.(freeCount := RestoredCount(h.freeCount, -1));
    ReplayLast(c, h, [a], CountRecord(-1));
    assert [a] + [CountRecord(-1)] == [a, CountRecord(-1)];
    ReplayOne(c, h1, a);
    TargetBack(|h.slots|, SLOT_ALLOC, id, before);
  }

  lemma UndoAlloc(c: Checksum, h: Heap, clear: bool)
    requires Proper(c) && WellSized(h)
    ensures var e := AllocEffect(c, h, clear);
      && WellSized(e.heap) && Records(e.records)
      && (Replay(c, e.heap, e.records) == (h, Ok) <==> Invertible(c, h, Alloc(clear)))
  {
    var e := AllocEffect(c, h, clear);
    if e.records != [] {
      NamesOff(|h.slots|, h.freeHead);
      var id := At(|h.slots|, h.freeHead).id;
      var s, s' := h.slots[id], e.heap.slots[id];
      ReplayAlloc(c, e.heap, id, StatusBytes(FREE, s'.crc));
      CountBack(h.freeCount);
      var h1 := e.heap.(freeCount := h.freeCount, freeHead := h.freeHead);
      OneSlotBack(h, h1, id, s'.(next := s.next, status := FREE, crc := 0));
    }
  }

  /** A transaction that takes the last free slot cannot be undone: the slot comes back, the count of one does not. */
  lemma LastSlotIsMiscounted(c: Checksum, h: Heap, clear: bool)
    requires Proper(c) && WellSized(h) && h.freeCount == 1 && AllocEffect(c, h, clear).err == Ok
    ensures var e := AllocEffect(c, h, clear);
      && Records(e.records) && |e.heap.slots| <= MOST_SLOTS
      && Replay(c, e.heap, e.records).1 == Ok
      && Replay(c, e.heap, e.records).0.freeHead == h.freeHead && Replay(c, e.heap, e.records).0.freeCount == 0
  {
    var e := AllocEffect(c, h, clear);
    NamesOff(|h.slots|, h.freeHead);
    var id := At(|h.slots|, h.freeHead).id;
    ReplayAlloc(c, e.heap, id, StatusBytes(FREE, e.heap.slots[id].crc));
  }

  /** On a sound heap an allocation is invertible unless it takes the only free slot. */
  lemma AllocOnSoundHeap(c: Checksum, h: Heap, sh: Shape, clear: bool)
    requires Proper(c) && WellSized(h) && Fits(c, h, sh)
    ensures Invertible(c, h, Alloc(clear)) <==> |sh.free| != 1
  {
    Open(c, h, sh);
    if sh.free != [] {
      var x := sh.free[0];
      assert x in sh.free && OnePlace(sh.place, x, InFree) && SlotOk(c, sh, x, h.slots[x]);
      OffNames(|h.slots|, x);
    }
  }

  /** Replaying the records of one operation restores the heap if and only if the operation is invertible. */
  lemma UndoExact(c: Checksum, h: Heap, op: Op)
    requires Proper(c) && WellSized(h) && Covered(h, op)
    ensures var e := Apply(c, h, op);
      && WellSized(e.heap) && Records(e.records)
      && (Replay(c, e.heap, e.records) == (h, Ok) <==> Invertible(c, h, op))
  {
    match op
    case Alloc(clear) => UndoAlloc(c, h, clear);
    case SetNext(id, next) => UndoNext(c, h, id, next);
    case SetStatus(id, status) => UndoStatus(c, h, id, status);
    case WritePayload(id, data) => UndoPayload(c, h, id, data);
  }

  // ---------- Undoing a transaction ----------

  /** `ef_undo_record_append`, in a log with room for `cap` records. */
  function AppendOne(log: seq<Record>, cap: nat, rec: Record): seq<Record> {
    if |log| < cap then log + [rec] else log
  }

  /** Several records; the callers ignore that the log may be full. */
  function Append(log: seq<Record>, cap: nat, recs: seq<Record>): seq<Record>
    decreases |recs|
  {
    if recs == [] then log else Append(AppendOne(log, cap, recs[0]), cap, recs[1..])
  }

  lemma {:induction false} AppendFits(log: seq<Record>, cap: nat, recs: seq<Record>)
    requires |log| + |recs| <= cap
    ensures Append(log, cap, recs) == log + recs
    decreases |recs|
  {
    if recs == [] {
      assert log + recs == log;
    } else {
      AppendFits(log + [recs[0]], cap, recs[1..]);
      assert log + [recs[0]] + recs[1..] == log + recs;
    }
  }

  lemma {:induction false} ReplayParts(c: Checksum, h: Heap, log: seq<Record>, recs: seq<Record>)
    requires |h.slots| <= MOST_SLOTS && Records(log) && Records(recs)
    ensures Records(log + recs)
    ensures |Replay(c, h, recs).0.slots| == |h.slots|
    ensures Replay(c, h, log + recs)
         == if Replay(c, h, recs).1 != Ok then Replay(c, h, recs) else Replay(c, Replay(c, h, recs).0, log)
    decreases |recs|
  {
    if recs == [] {
      assert log + recs == log;
    } else {
      var n := |recs| - 1;
      InvertKeepsSize(c, h, recs[n]);
      assert (log + recs)[..|log + recs| - 1] == log + recs[..n];
      var (h', err) := Invert(c, h, recs[n]);
      if err == Ok {
        ReplayParts(c, h', log, recs[..n]);
      }
    }
  }

  /** The heap and the log after the operations, one after the other. */
  function Run(c: Checksum, h: Heap, log: seq<Record>, cap: nat, ops: seq<Op>): (Heap, seq<Record>)
    requires Proper(c) && WellSized(h) && RunsCovered(c, h, ops)
    decreases |ops|
  {
    if ops == [] then (h, log)
    else
      var e := Apply(c, h, ops[0]);
      UndoExact(c, h, ops[0]);
      Run(c, e.heap, Append(log, cap, e.records), cap, ops[1..])
  }

  ghost predicate RunsCovered(c: Checksum, h: Heap, ops: seq<Op>)
    requires Proper(c) && WellSized(h)
    decreases |ops|
  {
    ops == [] ||
    (Covered(h, ops[0]) &&
     (UndoExact(c, h, ops[0]);
      RunsCovered(c, Apply(c, h, ops[0]).heap, ops[1..])))
  }

  /** Every operation is invertible in the state that it meets. */
  ghost predicate AllInvertible(c: Checksum, h: Heap, ops: seq<Op>)
    requires Proper(c) && WellSized(h) && RunsCovered(c, h, ops)
    decreases |ops|
  {
    ops == [] ||
    (Invertible(c, h, ops[0]) &&
     (UndoExact(c, h, ops[0]);
      AllInvertible(c, Apply(c, h, ops[0]).heap, ops[1..])))
  }

  /** How many records the operations append. */
  ghost function RecordsOf(c: Checksum, h: Heap, ops: seq<Op>): nat
    requires Proper(c) && WellSized(h) && RunsCovered(c, h, ops)
    decreases |ops|
  {
    if ops == [] then 0
    else
      UndoExact(c, h, ops[0]);
      |Apply(c, h, ops[0]).records| + RecordsOf(c, Apply(c, h, ops[0]).heap, ops[1..])
  }

  lemma {:induction false} RunUndone(c: Checksum, h: Heap, log: seq<Record>, cap: nat, ops: seq<Op>)
    requires Proper(c) && WellSized(h) && Records(log) && RunsCovered(c, h, ops) && AllInvertible(c, h, ops)
    requires |log| + RecordsOf(c, h, ops) <= cap
    ensures var (h', log') := Run(c, h, log, cap, ops);
      WellSized(h') && Records(log') && Replay(c, h', log') == Replay(c, h, log)
    decreases |ops|
  {
    if ops != [] {
      var e := Apply(c, h, ops[0]);
      UndoExact(c, h, ops[0]);
      AppendFits(log, cap, e.records);
      ReplayParts(c, e.heap, log, e.records);
      RunUndone(c, e.heap, log + e.records, cap, ops[1..]);
    }
  }

  /**
   Replay is an exact inverse: after any run of invertible operations whose records fit the log, replaying the
   log backwards restores every slot, the order of the free list and the free count.
   */
  lemma ReplayIsInverse(c: Checksum, h: Heap, cap: nat, ops: seq<Op>)
    requires Proper(c) && WellSized(h) && RunsCovered(c, h, ops) && AllInvertible(c, h, ops)
    requires RecordsOf(c, h, ops) <= cap
    ensures var (h', log) := Run(c, h, [], cap, ops);
      WellSized(h') && Records(log) && Replay(c, h', log) == (h, Ok)
  {
    RunUndone(c, h, [], cap, ops);
  }
}
