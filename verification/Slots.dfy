/**
 Slots of 64 bytes, their checksums, and the lists that one link word per slot can form. Links are offsets in the
 mapping; zero ends a list. The layout is the one without a hash region, in which slots never move.
 */
module Slots {
  import opened Base
  import opened Rebuild

  const FREE: nat := 0
  const USED: nat := 1
  const OVERFLOW: nat := 2
  const QUEUED: nat := 3
  const QUEUE_DUMMY: nat := 4
  const QUEUE_LINK: nat := 5
  const QUEUE_DEQ: nat := 6

  const PAYLOAD_SIZE: nat := 48

  type Byte = b: int | 0 <= b < 256

  // ---------- Numbers as bytes ----------

  /** The first `k` bytes of `n`, least significant first. */
  function LittleEndian(n: nat, k: nat): (r: seq<Byte>)
    ensures |r| == k
  {
    if k == 0 then [] else [n % 256] + LittleEndian(n / 256, k - 1)
  }

  function Number(s: seq<Byte>): nat {
    if s == [] then 0 else s[0] + 256 * Number(s[1..])
  }

  function Span(k: nat): (r: nat)
    ensures r > 0
  {
    if k == 0 then 1 else 256 * Span(k - 1)
  }

  /** Reading the bytes back gives the number that fits in them. */
  lemma {:induction false} BytesRoundTrip(n: nat, k: nat)
    requires n < Span(k)
    ensures Number(LittleEndian(n, k)) == n
  {
    if k > 0 {
      assert n / 256 < Span(k - 1);
      BytesRoundTrip(n / 256, k - 1);
      assert LittleEndian(n, k)[1..] == LittleEndian(n / 256, k - 1);
    }
  }

  /** The least significant byte comes first. */
  lemma {:induction false} ByteOf(n: nat, k: nat, i: nat)
    requires i < k
    ensures LittleEndian(n, k)[i] == n / Span(i) % 256
  {
    if i > 0 {
      ByteOf(n / 256, k - 1, i - 1);
      DivideTwice(n, 256, Span(i - 1));
    }
  }

  lemma DivideTwice(n: nat, a: nat, b: nat)
    requires a > 0 && b > 0
    ensures a * b > 0 && n / a / b == n / (a * b)
  {
    var q, r := n / a / b, n / a % b;
    assert n == a * (b * q + r) + n % a;
    assert a * (b * q + r) == (a * b) * q + a * r by {
      assert a * (b * q) == (a * b) * q;
    }
    NextMultiple(a, r, b);
    assert a * b > 0;
    QuotientIsUnique(n, a * b, q, a * r + n % a);
  }

  lemma NumberOfTwo(s: seq<Byte>)
    requires |s| >= 2
    ensures var d: seq<int> := s; Number(s) == d[0] + 256 * (d[1] + 256 * Number(s[2..]))
  {
    assert s[1..][1..] == s[2..];
  }

  lemma NumberOfEight(s: seq<Byte>)
    requires |s| == 8
    ensures var d: seq<int> := s;
      Number(s) == d[0] + 256 * (d[1] + 256 * (d[2] + 256 * (d[3]
                     + 256 * (d[4] + 256 * (d[5] + 256 * (d[6] + 256 * d[7]))))))
  {
    NumberOfTwo(s);
    NumberOfTwo(s[2..]);
    assert s[2..][2..] == s[4..];
    NumberOfTwo(s[4..]);
    assert s[4..][2..] == s[6..];
    NumberOfTwo(s[6..]);
  }

  lemma Spans()
    ensures Span(4) == 0x1_0000_0000 && Span(8) == WORD
  {
    assert Span(2) == 0x1_0000;
    assert Span(4) == 0x1_0000_0000;
  }

  function Zeros(k: nat): (r: seq<Byte>)
    ensures |r| == k
  {
    seq(k, _ => 0)
  }

  /** The bytes of `s` with `t` written over them from `at` on. */
  function Overwrite(s: seq<Byte>, at: nat, t: seq<Byte>): (r: seq<Byte>)
    requires at + |t| <= |s|
    ensures |r| == |s|
  {
    s[..at] + t + s[at + |t|..]
  }

  // ---------- Slots and their checksums ----------

  datatype Slot = Slot(status: nat, crc: nat, payload: seq<Byte>, next: Word)

  /** A checksum of slot id, status, payload and link; the code uses the CRC-32 of `Crc32`. */
  type Checksum = (nat, nat, seq<Byte>, Word) -> nat

  /** A stored checksum of zero is taken for a missing one, so the model needs a checksum that is never zero. */
  ghost predicate NeverZero(c: Checksum) {
    forall id: nat, status: nat, payload: seq<Byte>, next: Word :: c(id, status, payload, next) != 0
  }

  /** Checksums are 32-bit numbers and never zero. */
  ghost predicate Proper(c: Checksum) {
    forall id: nat, status: nat, payload: seq<Byte>, next: Word :: 0 < c(id, status, payload, next) < Span(4)
  }

  predicate UsesLinkCrc(status: nat) {
    status == QUEUED || status == QUEUE_DUMMY || status == QUEUE_LINK || status == QUEUE_DEQ
  }

  predicate HasCrc(status: nat) {
    status == USED || status == OVERFLOW || UsesLinkCrc(status)
  }

  /** `ef_slot_header_crc_compute`: queue slots leave their payload out. */
  function SlotCrc(c: Checksum, id: nat, s: Slot): nat {
    if UsesLinkCrc(s.status) then c(id, s.status, [], s.next) else c(id, s.status, s.payload, s.next)
  }

  /** `ef_slot_header_crc_valid`. */
  predicate CrcValid(c: Checksum, id: nat, s: Slot) {
    if !HasCrc(s.status) then true
    else if s.crc == 0 then false
    else if s.crc == SlotCrc(c, id, s) then true
    else UsesLinkCrc(s.status) && s.crc == c(id, s.status, s.payload, s.next)
  }

  /** `ef_slot_header_crc_store`. */
  function Seal(c: Checksum, id: nat, s: Slot): Slot {
    s.(crc := SlotCrc(c, id, s))
  }

  predicate Sealed(c: Checksum, id: nat, s: Slot) {
    HasCrc(s.status) ==> s.crc == SlotCrc(c, id, s)
  }

  lemma SealedIsValid(c: Checksum, id: nat, s: Slot)
    requires NeverZero(c) && Sealed(c, id, s)
    ensures CrcValid(c, id, s)
  {
  }

  /** Two slots with one checksum agree in everything that it is taken over. */
  ghost predicate Injective(c: Checksum) {
    forall i: nat, a: nat, p: seq<Byte>, x: Word, j: nat, b: nat, q: seq<Byte>, y: Word ::
      c(i, a, p, x) == c(j, b, q, y) ==> i == j && a == b && p == q && x == y
  }

  ghost predicate InUse(status: nat) {
    1 <= status <= 6
  }

  /**
   A checksum that has just been stored is good, and it is one of that slot, status and link; for statuses 1 and 2, of
   the payload too. Statuses 3 to 6 leave the payload out. All other statuses go without.
   */
  lemma CrcDetects(c: Checksum, id: nat, s: Slot, id': nat, s': Slot)
    requires NeverZero(c) && Injective(c) && s'.crc == Seal(c, id, s).crc
    ensures CrcValid(c, id, Seal(c, id, s))
    ensures !InUse(s'.status) ==> CrcValid(c, id', s')
    ensures InUse(s.status) && InUse(s'.status) && CrcValid(c, id', s') ==>
      && id' == id && s'.status == s.status && s'.next == s.next
      && (s.status <= 2 ==> s'.payload == s.payload)
    ensures 3 <= s.status <= 6 && id' == id && s'.status == s.status && s'.next == s.next ==> CrcValid(c, id', s')
  {
  }

  /**
   The test: a slot in use needs a stored checksum, over its payload for statuses 1 and 2; for 3 to 6 over no payload,
   though one over the payload is taken as well.
   */
  lemma CrcTest(c: Checksum, id: nat, s: Slot)
    ensures CrcValid(c, id, s) <==> InUse(s.status) ==>
      && s.crc != 0
      && (s.crc == c(id, s.status, s.payload, s.next) || (s.status >= 3 && s.crc == c(id, s.status, [], s.next)))
  {
  }

  // ---------- Offsets ----------

  /** The offset of a slot. */
  function Off(id: nat): nat {
    SB_SIZE + id * SLOT_SIZE
  }

  /** `ef_offset_to_slot_id` in this layout, among `n` slots. */
  function At(n: nat, offset: nat): SlotRef {
    OffsetToSlotId(SB_SIZE, n, offset)
  }

  lemma OffNames(n: nat, id: nat)
    requires id < n
    ensures Off(id) != 0 && At(n, Off(id)) == SlotRef.Slot(id)
  {
    OffsetRoundTrip(SB_SIZE, n, id, Off(id));
  }

  lemma NamesOff(n: nat, offset: nat)
    requires At(n, offset).Slot?
    ensures At(n, offset).id < n && offset == Off(At(n, offset).id)
  {
    OffsetRoundTrip(SB_SIZE, n, At(n, offset).id, offset);
  }

  /** The offset of one of `n` slots. */
  ghost predicate NamesSlot(n: nat, offset: nat) {
    exists id: nat :: id < n && offset == 64 + 64 * id
  }

  predicate OffGrid(offset: nat) {
    offset < 64 || (offset - 64) % 64 != 0
  }

  lemma AtOutcome(n: nat, offset: nat)
    ensures At(n, offset).Slot? <==> NamesSlot(n, offset)
    ensures At(n, offset) == Bad(Offset) <==> OffGrid(offset)
    ensures At(n, offset) == Bad(SlotId) <==> !OffGrid(offset) && !NamesSlot(n, offset)
    ensures At(n, offset).Slot? ==> At(n, offset).id < n && offset == 64 + 64 * At(n, offset).id
  {
    OffsetOutcome(64, n, offset);
  }

  /** So many slots that every offset fits in a word and every count in 32 bits. */
  const MOST_SLOTS: nat := 0xFFFF_FFFF

  const UNDO_LOG_SLOTS: nat := 4096
  const UNDO_LOG_BYTES: nat := 32 + UNDO_LOG_SLOTS * 32

  /** `ef_expected_file_size` without a hash region. */
  function ExpectedSize(maxSlots: nat): nat {
    SB_SIZE + maxSlots * SLOT_SIZE + UNDO_LOG_BYTES
  }
}
