/** The layout of a blob: a magic number and a length, bytes inline in the head, the rest in overflow slots. */
module Blobs {
  import opened Base
  import opened Slots
  import opened Heaps
  import opened Contents

  const BLOB_MAGIC: nat := 0x424F_4C42
  const HEADER_SIZE: nat := 8
  const INLINE: nat := PAYLOAD_SIZE - HEADER_SIZE

  /** How many bytes of a blob are in its head. */
  function InlinePart(len: nat): (r: nat)
    ensures r <= len && r <= INLINE
  {
    if len < INLINE then len else INLINE
  }

  /** How many of the `left` bytes go into the next overflow slot. */
  function ChunkSize(left: nat): (r: nat)
    ensures r <= left && r <= PAYLOAD_SIZE && (left > 0 ==> r > 0)
  {
    if left < PAYLOAD_SIZE then left else PAYLOAD_SIZE
  }

  function BlobHeader(len: nat): (r: seq<Byte>)
    ensures |r| == HEADER_SIZE
  {
    LittleEndian(BLOB_MAGIC, 4) + LittleEndian(len, 4)
  }

  /** `ef_blob_magic_valid`. */
  predicate HasMagic(bytes: seq<Byte>)
    requires |bytes| >= HEADER_SIZE
  {
    Number(bytes[..4]) == BLOB_MAGIC
  }

  /** The stored length. */
  function LengthField(bytes: seq<Byte>): nat
    requires |bytes| >= HEADER_SIZE
  {
    Number(bytes[4..8])
  }

  lemma HeaderReads(len: nat, rest: seq<Byte>)
    requires len < 0x1_0000_0000
    ensures HasMagic(BlobHeader(len) + rest) && LengthField(BlobHeader(len) + rest) == len
  {
    var bytes := BlobHeader(len) + rest;
    assert bytes[..4] == LittleEndian(BLOB_MAGIC, 4);
    assert bytes[4..8] == LittleEndian(len, 4);
    Spans();
    BytesRoundTrip(BLOB_MAGIC, 4);
    BytesRoundTrip(len, 4);
  }

  lemma ZerosAreNoBlob(bytes: seq<Byte>)
    requires |bytes| >= HEADER_SIZE && bytes[..4] == Zeros(4)
    ensures !HasMagic(bytes)
  {
    var z := Zeros(4);
    assert z[1..] == Zeros(3) && z[1..][1..] == Zeros(2) && z[1..][1..][1..] == Zeros(1);
    assert Zeros(1)[1..] == [];
    assert Number(z) == 0;
  }

  /** The first `n` bytes, or all there are. */
  function Prefix(s: seq<Byte>, n: nat): seq<Byte> {
    if n <= |s| then s[..n] else s
  }

  /** `stored`, everything under a head, is the blob `data`. */
  ghost predicate IsBlob(stored: seq<Byte>, data: seq<Byte>) {
    && |stored| >= HEADER_SIZE + |data|
    && HasMagic(stored) && LengthField(stored) == |data|
    && stored[HEADER_SIZE..HEADER_SIZE + |data|] == data
  }

  /** What `ef_read_blob` copies into a buffer of `cap` bytes. */
  ghost function Copied(stored: seq<Byte>, cap: nat): seq<Byte>
    requires |stored| >= HEADER_SIZE
  {
    Prefix(stored[HEADER_SIZE..], if LengthField(stored) <= cap then LengthField(stored) else cap)
  }

  /** Reading a blob gives its bytes, or exactly as many of the first as the buffer takes. */
  lemma ReadBack(stored: seq<Byte>, data: seq<Byte>, cap: nat)
    requires IsBlob(stored, data)
    ensures Copied(stored, cap) == Prefix(data, cap)
    ensures cap >= |data| ==> Copied(stored, cap) == data
  {
    var s := stored[HEADER_SIZE..];
    assert s[..|data|] == data;
    var n := if |data| <= cap then |data| else cap;
    assert s[..n] == data[..n];
  }

  /** The number of overflow slots of a blob of `len` bytes: what is past the head, 48 bytes a slot, rounded up. */
  function Overflows(len: nat): nat {
    if len <= INLINE then 0 else (len - INLINE + PAYLOAD_SIZE - 1) / PAYLOAD_SIZE
  }

  /** The slots of a blob hold it, and one overflow slot less would not. */
  lemma OverflowsAreEnough(len: nat)
    ensures len <= INLINE + PAYLOAD_SIZE * Overflows(len)
    ensures Overflows(len) > 0 ==> INLINE + PAYLOAD_SIZE * (Overflows(len) - 1) < len
  {
  }

  // ---------- Why only heads are freed ----------

  /** Some slot links to every slot of a chain. */
  lemma ChainPredecessor(c: Checksum, h: Heap, sh: Shape, x: nat) returns (y: nat)
    requires Fits(c, h, sh) && x < |h.slots| && sh.place[x].Overflow?
    ensures y < |h.slots| && y != x && h.slots[y].next == Off(x)
    ensures sh.place[y] == Head || sh.place[y].Overflow?
  {
    Open(c, h, sh);
    var o := sh.place[x].of;
    assert o in sh.chains && ChainOk(h, sh, o) && OnePlace(sh.place, o, Head);
    assert OnePlace(sh.place, x, Overflow(o)) && x in sh.chains[o];
    var i: nat :| i < |sh.chains[o]| && sh.chains[o][i] == x;
    if i == 0 {
      y := o;
    } else {
      y := sh.chains[o][i - 1];
      assert LinkAt(h.slots, sh.chains[o], i - 1);
      assert y in sh.chains[o] && OnePlace(sh.place, y, Overflow(o));
    }
  }

  lemma NextInChain(c: Checksum, h: Heap, sh: Shape, y: nat, x: nat)
    requires Fits(c, h, sh) && y < |h.slots| && x < |h.slots| && h.slots[y].next == Off(x)
    requires sh.place[y] == Head || sh.place[y].Overflow?
    ensures sh.place[x].Overflow?
  {
    Open(c, h, sh);
    if sh.place[y] == Head {
      assert OnePlace(sh.place, y, Head) && y in sh.chains && ChainOk(h, sh, y);
      assert sh.chains[y] != [] && sh.chains[y][0] == x;
      assert x in sh.chains[y] && OnePlace(sh.place, x, Overflow(y));
    } else {
      var o := sh.place[y].of;
      assert o in sh.chains && ChainOk(h, sh, o);
      assert OnePlace(sh.place, y, Overflow(o)) && y in sh.chains[o];
      var i: nat :| i < |sh.chains[o]| && sh.chains[o][i] == y;
      assert LinkAt(h.slots, sh.chains[o], i);
      assert sh.chains[o][i + 1] == x && x in sh.chains[o] && OnePlace(sh.place, x, Overflow(o));
    }
  }

  /**
   Freeing an overflow slot by itself, which `ef_free_slot` allows, always leaves a heap that no shape fits: its
   predecessor still links to it.
   */
  lemma FreeingOverflowBreaks(c: Checksum, h: Heap, sh: Shape, x: nat, sh': Shape)
    requires Fits(c, h, sh) && x < |h.slots| && h.slots[x].status == OVERFLOW
    ensures !Fits(c, Given(h, x), sh')
  {
    Open(c, h, sh);
    assert SlotOk(c, sh, x, h.slots[x]);
    NoneLoose(c, h, sh, x);
    var y := ChainPredecessor(c, h, sh, x);
    var h' := Given(h, x);
    assert SlotOk(c, sh, y, h.slots[y]);
    if Fits(c, h', sh') {
      Open(c, h', sh');
      assert SlotOk(c, sh', y, h'.slots[y]) && SlotOk(c, sh', x, h'.slots[x]);
      assert h'.slots[x].status == FREE && h'.slots[y].next == Off(x);
      NoneLoose(c, h', sh', y);
      NextInChain(c, h', sh', y, x);
      assert false;
    }
  }

  lemma NoneLoose(c: Checksum, h: Heap, sh: Shape, y: nat)
    requires Fits(c, h, sh) && y < |h.slots|
    ensures sh.place[y] != Loose
  {
    Open(c, h, sh);
    assert sh.loose == [];
    assert OnePlace(sh.place, y, Loose) ==> y in sh.loose;
  }

  // ---------- Conservation ----------

  ghost predicate InChain(sh: Shape, x: nat) {
    exists y: nat :: y in sh.chains && x in sh.chains[y]
  }

  /**
   Every slot is on the free list, in the queue, a head that a caller owns, or in the overflow chain of exactly one
   head, and in no two of these; no list holds it twice; and the free count is the length of the free list.
   */
  lemma EverySlotOnce(c: Checksum, h: Heap, sh: Shape, x: nat)
    requires Fits(c, h, sh) && x < |h.slots|
    ensures x in sh.free || x in sh.queue || x in sh.chains || InChain(sh, x)
    ensures x in sh.free ==> x !in sh.queue && x !in sh.chains && !InChain(sh, x)
    ensures x in sh.queue ==> x !in sh.chains && !InChain(sh, x)
    ensures x in sh.chains ==> !InChain(sh, x)
    ensures forall y: nat, z: nat :: y in sh.chains && z in sh.chains && x in sh.chains[y] && x in sh.chains[z] ==>
      y == z
    ensures Distinct(sh.free) && Distinct(sh.queue) && forall y: nat :: y in sh.chains ==> Distinct(sh.chains[y])
    ensures h.freeCount == |sh.free|
  {
    Open(c, h, sh);
    NoneLoose(c, h, sh, x);
    forall y: nat | y in sh.chains
      ensures Distinct(sh.chains[y]) && (x in sh.chains[y] <==> OnePlace(sh.place, x, Overflow(y)))
    {
      assert ChainOk(h, sh, y);
    }
    assert x in sh.free <==> OnePlace(sh.place, x, InFree);
    assert x in sh.queue <==> OnePlace(sh.place, x, InQueue);
    assert x in sh.chains <==> OnePlace(sh.place, x, Head);
    if sh.place[x].Overflow? {
      assert sh.place[x].of in sh.chains && x in sh.chains[sh.place[x].of];
    }
  }
}
