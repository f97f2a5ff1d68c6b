/**
 The file as it is laid out: the numbers of the slots, lists, records and blobs, and the limits, against which the
 named constants and the predicates of the other modules are checked.
 */
module Layout {
  import opened Base
  import Rebuild
  import opened Slots
  import opened Heaps
  import opened Contents
  import opened Blobs
  import opened IndexSizing
  import RobinHood
  import Store
  import Txn

  // ---------- Offsets and sizes ----------

  /** Slots of 64 bytes follow a superblock of 64 and a hash region of 16 bytes a bucket; the undo log is last. */
  lemma Offsets(id: nat, n: nat, capacity: nat)
    ensures Off(id) == 64 + 64 * id
    ensures Rebuild.SlotsBase(capacity) == 64 + 16 * capacity
    ensures Rebuild.SlotToOffset(Rebuild.SlotsBase(capacity), n, id)
         == if id < n then 64 + 16 * capacity + 64 * id else 0
    ensures ExpectedSize(n) == 64 + 64 * n + 32 + 4096 * 32
    ensures n > 0 ==> (n <= Store.Limit(capacity) <==> 131168 + 64 * n <= capacity)
  {
    Store.LimitIsExact(capacity, if n > 0 then n else 1);
  }

  // ---------- Lists ----------

  /** From offset `off` the links run through the slots of `l` and end. */
  ghost predicate Runs(slots: seq<Slot>, off: nat, l: seq<nat>) {
    && off == (if l == [] then 0 else 64 + 64 * l[0])
    && forall i: nat :: i < |l| ==>
         l[i] < |slots| && slots[l[i]].next == if i + 1 < |l| then 64 + 64 * l[i + 1] else 0
  }

  ghost predicate AllHave(slots: seq<Slot>, l: seq<nat>, status: nat) {
    forall i: nat :: i < |l| ==> l[i] < |slots| && slots[l[i]].status == status
  }

  lemma ListRuns(slots: seq<Slot>, place: seq<Place>, off: nat, l: seq<nat>, p: Place)
    requires ListOk(slots, place, off, l, p)
    ensures Runs(slots, off, l)
  {
    forall i: nat | i < |l|
      ensures l[i] < |slots| && slots[l[i]].next == if i + 1 < |l| then 64 + 64 * l[i + 1] else 0
    {
      assert LinkAt(slots, l, i);
    }
  }

  /**
   What a sound heap is in memory. The free list runs through free, empty slots, as many as the count says; the queue
   through its dummy and the queued slots, up to its tail; each head's chain through overflow slots. All three end,
   and every checksum is good.
   */
  lemma SoundHeap(c: Checksum, h: Heap, sh: Shape)
    requires NeverZero(c) && Fits(c, h, sh)
    ensures Runs(h.slots, h.freeHead, sh.free) && AllHave(h.slots, sh.free, 0) && h.freeCount == |sh.free|
    ensures forall i: nat :: i < |sh.free| ==> h.slots[sh.free[i]].payload == Zeros(48)
    ensures Runs(h.slots, h.queueHead, sh.queue)
    ensures sh.queue == [] ==> h.queueTail == 0
    ensures sh.queue != [] ==>
      && h.slots[sh.queue[0]].status == 4 && AllHave(h.slots, sh.queue[1..], 3)
      && h.queueTail == 64 + 64 * sh.queue[|sh.queue| - 1]
    ensures forall x: nat :: x in sh.chains ==>
      && x < |h.slots| && h.slots[x].status == 1
      && Runs(h.slots, h.slots[x].next, sh.chains[x]) && AllHave(h.slots, sh.chains[x], 2)
    ensures forall x: nat :: x < |h.slots| ==> |h.slots[x].payload| == 48 && CrcValid(c, x, h.slots[x])
  {
    Open(c, h, sh);
    ListRuns(h.slots, sh.place, h.freeHead, sh.free, InFree);
    ListRuns(h.slots, sh.place, h.queueHead, sh.queue, InQueue);
    forall x: nat | x < |h.slots|
      ensures h.slots[x].status == StatusOf(sh, x) && |h.slots[x].payload| == 48 && CrcValid(c, x, h.slots[x])
      ensures sh.place[x].InFree? ==> h.slots[x].payload == Zeros(48)
    {
      assert SlotOk(c, sh, x, h.slots[x]) && !sh.place[x].Loose? by {
        assert OnePlace(sh.place, x, Loose) ==> x in sh.loose;
      }
    }
    forall i: nat | i < |sh.free| ensures OnePlace(sh.place, sh.free[i], InFree) {
      assert sh.free[i] in sh.free;
    }
    forall i: nat | i < |sh.queue|
      ensures OnePlace(sh.place, sh.queue[i], InQueue) && (i > 0 ==> sh.queue[i] != sh.queue[0])
    {
      assert sh.queue[i] in sh.queue;
    }
    forall x: nat | x in sh.chains
      ensures x < |h.slots| && Runs(h.slots, h.slots[x].next, sh.chains[x]) && AllHave(h.slots, sh.chains[x], 2)
    {
      assert ChainOk(h, sh, x) && OnePlace(sh.place, x, Head);
      ListRuns(h.slots, sh.place, h.slots[x].next, sh.chains[x], Overflow(x));
      forall i: nat | i < |sh.chains[x]| ensures OnePlace(sh.place, sh.chains[x][i], Overflow(x)) {
        assert sh.chains[x][i] in sh.chains[x];
      }
    }
  }

  // ---------- Queue messages and blobs ----------

  /** A message is its length in one byte and its bytes. */
  lemma MessageBytes(data: seq<Byte>, rest: seq<Byte>)
    requires |data| < 256
    ensures Message([|data|] + data + rest) == data
  {
    var p := [|data|] + data + rest;
    assert p[1..1 + |data|] == data;
  }

  /** The header of a blob: the letters B, L, O, B and the length, least significant byte first. */
  lemma HeaderBytes(len: nat)
    requires len < 0x1_0000_0000
    ensures BlobHeader(len) == ['B' as Byte, 'L' as Byte, 'O' as Byte, 'B' as Byte,
                                len % 256, len / 0x100 % 256, len / 0x1_0000 % 256, len / 0x100_0000]
  {
    FourBytes(BLOB_MAGIC);
    FourBytes(len);
  }

  lemma FourBytes(n: nat)
    requires n < 0x1_0000_0000
    ensures LittleEndian(n, 4) == [n % 256, n / 0x100 % 256, n / 0x1_0000 % 256, n / 0x100_0000]
  {
    assert LittleEndian(n, 4) == [n % 256] + LittleEndian(n / 256, 3);
    assert LittleEndian(n / 256, 3) == [n / 256 % 256] + LittleEndian(n / 256 / 256, 2);
    assert LittleEndian(n / 256 / 256, 2) == [n / 256 / 256 % 256] + LittleEndian(n / 256 / 256 / 256, 1);
    assert LittleEndian(n / 256 / 256 / 256, 1) == [n / 256 / 256 / 256 % 256];
  }

  /** A blob starts with those letters and its length, and its bytes follow. */
  lemma BlobBytes(stored: seq<Byte>, data: seq<Byte>)
    ensures |data| < 0x1_0000_0000 && |stored| >= 8 + |data| && stored[..8 + |data|] == BlobHeader(|data|) + data
        ==> IsBlob(stored, data)
    ensures IsBlob(stored, data) ==> |stored| >= 8 + |data| && stored[8..8 + |data|] == data
    ensures IsBlob(stored, data) ==> LengthField(stored) == |data|
  {
    if |data| < 0x1_0000_0000 && |stored| >= 8 + |data| && stored[..8 + |data|] == BlobHeader(|data|) + data {
      var rest := stored[8..];
      assert stored == BlobHeader(|data|) + rest by {
        assert stored[..8] == stored[..8 + |data|][..8];
      }
      HeaderReads(|data|, rest);
      assert stored[8..8 + |data|] == stored[..8 + |data|][8..];
    }
  }

  /** A head takes 40 bytes of a blob and each overflow slot 48 more. */
  lemma BlobSlots(len: nat, k: nat)
    ensures Overflows(len) <= k <==> len <= 40 + 48 * k
    ensures InlinePart(len) == if len < 40 then len else 40
    ensures ChunkSize(len) == if len < 48 then len else 48
  {
  }

  /** The log header starts with the letters U, N, D, O; no transaction, an active and an aborting one are 0, 1, 2. */
  lemma LogHeader()
    ensures LittleEndian(Txn.UNDO_HEADER_MAGIC, 4) == ['U' as Byte, 'N' as Byte, 'D' as Byte, 'O' as Byte]
    ensures Txn.UNDO_HEADER_SIZE == 32 && Txn.UNDO_RECORD_SIZE == 32
    ensures Txn.STATE_NONE == 0 && Txn.STATE_ACTIVE == 1 && Txn.STATE_ABORTING == 2
  {
    FourBytes(Txn.UNDO_HEADER_MAGIC);
  }

  // ---------- The index ----------

  /** The home of a key is its remainder. */
  lemma HomeIsRemainder(n: nat, key: Word)
    requires PowerOfTwo(n)
    ensures RobinHood.Home(n, key) == key % n
  {
    var k: nat :| n == Pow2(k);
    MaskIsRemainder(key, k);
  }

  /** Three quarters and one eighth, on the dot. */
  lemma LoadFactors(k: nat)
    ensures NeedsGrow(3 * k, 4 * k) && (k > 0 ==> !NeedsGrow(3 * k - 1, 4 * k))
    ensures k > 0 ==> ShouldShrink(0, k) && !ShouldShrink(k, 8 * k) && ShouldShrink(k - 1, 8 * k)
    ensures !ShouldShrink(k, 0)
  {
  }

  lemma PickedPower(entries: nat, k: nat)
    requires 4 <= k <= 15 && 4 * entries <= 3 * Pow2(k) && (k > 4 ==> 4 * entries > 3 * Pow2(k - 1))
    ensures Picked(entries, 16) == Pow2(k)
  {
    MinIsPower();
    assert Pow2(3) == 8 && Pow2(4) == 16;
    DoublingOfPower(16, Pow2(k));
    PowersGrow(4, k);
    PowersGrow(k, 15);
    assert Pow2(15) == 32768 by {
      assert Pow2(5) == 32 && Pow2(10) == 1024;
    }
    forall c: nat | Doubling(16, c) && Carries(c, entries) ensures Pow2(k) <= c {
      DoublingOfPower(16, c);
      var j: nat :| c == Pow2(j);
      if j < k {
        PowersGrow(j, k - 1);
      } else {
        PowersGrow(k, j);
      }
    }
    PickedIs(entries, 16, Pow2(k));
  }

  lemma {:induction false} PowersGrow(i: nat, j: nat)
    requires i <= j
    ensures Pow2(i) <= Pow2(j)
  {
    if i < j {
      PowersGrow(i, j - 1);
    }
  }

  /** No capacity from 16 doubled carries more than 24576 entries. */
  lemma NothingPicked(entries: nat)
    requires entries > 24576
    ensures Picked(entries, 16) == 0
  {
    forall c: nat | Picks(entries, 16, c) ensures false {
      MinIsPower();
      DoublingOfPower(16, c);
      var j: nat :| c == Pow2(j);
      assert Pow2(16) == 65536 by {
        assert Pow2(5) == 32 && Pow2(10) == 1024 && Pow2(15) == 32768;
      }
      if j < 16 {
        PowersGrow(j, 15);
      } else {
        PowersGrow(16, j);
      }
    }
  }
}
