/**
 The data movement of a rehash on mapped memory: the overlapping move of the slot region, the rewriting of every
 offset and the rebuilding of the table, and what they mean for the map from keys to slots.
 */
module IndexMemory {
  import opened Base
  import opened RobinHood
  import opened RobinHoodPut
  import opened RobinHoodRemove
  import opened IndexTable
  import opened IndexSizing
  import opened Rebuild
  import opened Hazards
  import Slots

  /** Words of the undo segment behind the slot region: its header and 4096 records. */
  const UNDO_WORDS: nat := 4 + 4096 * 4

  const SLOT_WORDS: nat := 8
  const NEXT_WORD: nat := 7

  /** Word index of a slot behind a hash region of `capacity` entries. */
  function SlotAt(capacity: nat, id: nat): nat {
    2 * capacity + SLOT_WORDS * id
  }

  /** The whole of slot `id`. */
  function SlotWords(m: seq<Word>, capacity: nat, id: nat): seq<Word>
    requires SlotAt(capacity, id) + SLOT_WORDS <= |m|
  {
    m[SlotAt(capacity, id)..SlotAt(capacity, id) + SLOT_WORDS]
  }

  /** A slot with its link rewritten for a moved slot region. */
  function FixedSlot(s: seq<Word>, oldBase: nat, newBase: nat): seq<Word>
    requires |s| == SLOT_WORDS
  {
    s[NEXT_WORD := Fixup(s[NEXT_WORD], oldBase, newBase)]
  }

  // ---------- Memory primitives ----------

  method MoveDown(mem: array<Word>, dst: nat, src: nat, len: nat)
    requires dst <= src && src + len <= mem.Length
    modifies mem
    ensures mem[dst..dst + len] == old(mem[src..src + len]) && mem[..dst] == old(mem[..dst])
  {
    ghost var m := mem[..];
    for k := 0 to len
      invariant mem[..dst] == m[..dst]
      invariant mem[dst..dst + k] == m[src..src + k]
      invariant mem[dst + k..] == m[dst + k..]
    {
      mem[dst + k] := mem[src + k];
      assert mem[dst..dst + k + 1] == mem[dst..dst + k] + [m[src + k]];
    }
  }

  method MoveUp(mem: array<Word>, dst: nat, src: nat, len: nat)
    requires src <= dst && dst + len <= mem.Length
    modifies mem
    ensures mem[dst..dst + len] == old(mem[src..src + len]) && mem[..dst] == old(mem[..dst])
  {
    ghost var m := mem[..];
    for k := len downto 0
      invariant mem[dst + k..dst + len] == m[src + k..src + len]
      invariant mem[..dst + k] == m[..dst + k]
    {
      mem[dst + k] := mem[src + k];
      assert mem[dst + k..dst + len] == [m[src + k]] + mem[dst + k + 1..dst + len];
    }
  }

  /** `memmove`: the two ranges may overlap. The words before the destination stay. */
  method MemMove(mem: array<Word>, dst: nat, src: nat, len: nat)
    requires dst + len <= mem.Length && src + len <= mem.Length
    modifies mem
    ensures mem[dst..dst + len] == old(mem[src..src + len]) && mem[..dst] == old(mem[..dst])
  {
    if dst <= src {
      MoveDown(mem, dst, src, len);
    } else {
      MoveUp(mem, dst, src, len);
    }
  }

  /** `memset` of the hash region. */
  method ClearTable(mem: array<Word>, n: nat)
    requires 2 * n <= mem.Length
    modifies mem
    ensures AllEmpty(Table(mem[..], n))
    ensures SameBeyond(old(mem[..]), mem[..], 2 * n)
  {
    for j := 0 to 2 * n
      invariant forall i: nat :: i < j ==> mem[i] == 0
      invariant forall i: nat :: j <= i < mem.Length ==> mem[i] == old(mem[i])
    {
      mem[j] := 0;
    }
  }

  /** The recount of `ef_index_bind_layout`. */
  method CountEntries(mem: array<Word>, n: nat) returns (count: nat)
    requires 2 * n <= mem.Length
    ensures count == Occupied(Table(mem[..], n))
  {
    count := 0;
    ghost var t := Table(mem[..], n);
    for b := 0 to n
      invariant count == Occupied(t[..b])
    {
      assert t[..b + 1][..b] == t[..b];
      var e := LoadEntry(mem, b);
      if !Empty(e) {
        count := count + 1;
      }
    }
    assert t[..n] == t;
  }

  /** The backup loop of a rehash: the live entries in bucket order. */
  method Collect(mem: array<Word>, n: nat) returns (es: seq<Entry>)
    requires 2 * n <= mem.Length
    ensures es == Compact(Table(mem[..], n))
  {
    es := [];
    ghost var t := Table(mem[..], n);
    for b := 0 to n
      invariant es == Compact(t[..b])
    {
      assert t[..b + 1][..b] == t[..b];
      var e := LoadEntry(mem, b);
      if !Empty(e) {
        es := es + [e];
      }
    }
    assert t[..n] == t;
  }

  function FixedEntry(e: Entry, oldBase: nat, newBase: nat): Entry {
    Entry(e.key, Fixup(e.slot, oldBase, newBase))
  }

  function FixedEntries(es: seq<Entry>, oldBase: nat, newBase: nat): seq<Entry> {
    seq(|es|, i requires 0 <= i < |es| => FixedEntry(es[i], oldBase, newBase))
  }

  /** The loop over all slots in `ef_index_fixup_all_offsets`. */
  method FixSlots(mem: array<Word>, capacity: nat, maxSlots: nat, oldBase: nat, newBase: nat)
    requires SlotAt(capacity, maxSlots) <= mem.Length && oldBase > 0
    modifies mem
    ensures forall id: nat :: id < maxSlots ==>
              SlotWords(mem[..], capacity, id) == FixedSlot(SlotWords(old(mem[..]), capacity, id), oldBase, newBase)
  {
    ghost var m := mem[..];
    for i := 0 to maxSlots
      invariant forall id: nat :: id < i ==>
                  SlotWords(mem[..], capacity, id) == FixedSlot(SlotWords(m, capacity, id), oldBase, newBase)
      invariant forall id: nat :: i <= id < maxSlots ==> SlotWords(mem[..], capacity, id) == SlotWords(m, capacity, id)
    {
      var at := SlotAt(capacity, i) + NEXT_WORD;
      var next := mem[at];
      ghost var before := mem[..];
      if next >= oldBase {
        mem[at] := AddWord(next, newBase - oldBase);
      }
      assert mem[..] == before[at := Fixup(next, oldBase, newBase)];
      forall id: nat | id < maxSlots
        ensures SlotWords(mem[..], capacity, id)
             == if id == i then FixedSlot(SlotWords(before, capacity, i), oldBase, newBase)
                else SlotWords(before, capacity, id)
      {
        LinkUpdate(before, capacity, i, id, oldBase, newBase);
      }
    }
  }

  lemma LinkUpdate(m: seq<Word>, capacity: nat, i: nat, id: nat, oldBase: nat, newBase: nat)
    requires SlotAt(capacity, i) + SLOT_WORDS <= |m| && SlotAt(capacity, id) + SLOT_WORDS <= |m|
    ensures var at := SlotAt(capacity, i) + NEXT_WORD;
            SlotWords(m[at := Fixup(m[at], oldBase, newBase)], capacity, id)
            == (if id == i then FixedSlot(SlotWords(m, capacity, i), oldBase, newBase) else SlotWords(m, capacity, id))
  {
  }

  /** The reinsertion loop of a rehash. */
  method InsertAll(mem: array<Word>, n: nat, es: seq<Entry>) returns (err: Err)
    requires 2 * n <= mem.Length && n > 0 && PowerOfTwo(n)
    modifies mem
    ensures SameBeyond(old(mem[..]), mem[..], 2 * n)
    ensures var r := Reinsert(old(Table(mem[..], n)), es);
            err == (if r.ok then Ok else IndexFull) && Table(mem[..], n) == r.table
  {
    ghost var t := Table(mem[..], n);
    for i := 0 to |es|
      invariant SameBeyond(old(mem[..]), mem[..], 2 * n)
      invariant Reinsert(t, es[..i]) == Rebuilt(true, Table(mem[..], n))
    {
      assert es[..i + 1][..i] == es[..i];
      var added;
      err, added := PutEntry(mem, n, es[i].key, es[i].slot);
      if err != Ok {
        StuckStays(t, es, i + 1);
        return;
      }
    }
    assert es[..|es|] == es;
    err := Ok;
  }

  lemma {:induction false} StuckStays(t: seq<Entry>, es: seq<Entry>, i: nat)
    requires |t| > 0 && i <= |es| && !Reinsert(t, es[..i]).ok
    ensures Reinsert(t, es) == Reinsert(t, es[..i])
  {
    if i < |es| {
      assert es[..|es| - 1][..i] == es[..i];
      StuckStays(t, es[..|es| - 1], i);
    } else {
      assert es[..i] == es;
    }
  }

  // ---------- What the index stands for ----------

  /** The slot that each key is mapped to. */
  ghost function Ids(t: seq<Entry>, base: nat, maxSlots: nat): map<Word, Option<nat>> {
    IdsOf(Contents(t), base, maxSlots)
  }

  ghost predicate AllName(m: map<Word, Word>, base: nat, maxSlots: nat) {
    forall k: Word :: k in m ==> Names(base, maxSlots, m[k]).Some?
  }

  ghost predicate Layout(words: nat, capacity: nat, maxSlots: nat) {
    && (capacity == 0 || PowerOfTwo(capacity)) && capacity <= 0xFFFF
    && SlotAt(capacity, maxSlots) + UNDO_WORDS <= words
    && SB_SIZE + 8 * words <= WORD
  }

  lemma {:induction false} FixedMap(es: seq<Entry>, oldBase: nat, newBase: nat, k: Word)
    ensures k in MapOf(FixedEntries(es, oldBase, newBase)) <==> k in MapOf(es)
    ensures k in MapOf(es) ==> MapOf(FixedEntries(es, oldBase, newBase))[k] == Fixup(MapOf(es)[k], oldBase, newBase)
  {
    if es != [] {
      var u := es[..|es| - 1];
      var f := FixedEntries(es, oldBase, newBase);
      assert f[..|f| - 1] == FixedEntries(u, oldBase, newBase);
      FixedMap(u, oldBase, newBase, k);
    }
  }

  /** Offsets that name slots are still non-zero and still name the same slots after the fixup. */
  lemma FixedNames(offset: Word, oldBase: nat, newBase: nat, maxSlots: nat)
    requires oldBase > 0 && newBase > 0 && newBase + maxSlots * SLOT_SIZE <= WORD
    requires Names(oldBase, maxSlots, offset).Some?
    ensures Names(newBase, maxSlots, Fixup(offset, oldBase, newBase)) == Names(oldBase, maxSlots, offset)
    ensures Fixup(offset, oldBase, newBase) != 0
  {
    FixupKeepsNames(offset, oldBase, newBase, maxSlots);
  }

  lemma FixedDistinct(es: seq<Entry>, oldBase: nat, newBase: nat, maxSlots: nat)
    requires DistinctKeys(es) && AllName(MapOf(es), oldBase, maxSlots)
    requires oldBase > 0 && newBase > 0 && newBase + maxSlots * SLOT_SIZE <= WORD
    ensures DistinctKeys(FixedEntries(es, oldBase, newBase))
  {
    forall i: nat | i < |es|
      ensures !Empty(FixedEntry(es[i], oldBase, newBase))
    {
      MapOfHas(es, i);
      FixedNames(es[i].slot, oldBase, newBase, maxSlots);
    }
  }

  lemma {:induction false} MapOfHas(es: seq<Entry>, i: nat)
    requires DistinctKeys(es) && i < |es|
    ensures es[i].key in MapOf(es) && MapOf(es)[es[i].key] == es[i].slot
  {
    if i < |es| - 1 {
      PrefixDistinct(es);
      MapOfHas(es[..|es| - 1], i);
    }
  }

  /** The pure effect of a rehash on the table. */
  ghost function Rehashed(t: seq<Entry>, oldBase: nat, newBase: nat, n: nat): Rebuilt
    requires n > 0
  {
    Reinsert(seq(n, _ => EMPTY), FixedEntries(Compact(t), oldBase, newBase))
  }

  /**
   A rehash of any ordered table leaves an ordered table with exactly so many keys as `Kept` says, each with its slot.
   It keeps all of them if and only if they are no more than the new buckets and, in bucket order, do not get stuck.
   With all of them kept it succeeds; with some missing it fails, or the new table is full.
   */
  lemma RehashMeaning(t: seq<Entry>, oldBase: nat, newBase: nat, n: nat, maxSlots: nat)
    requires WellFormed(t) && n > 0 && AllName(Contents(t), oldBase, maxSlots)
    requires oldBase > 0 && newBase > 0 && newBase + maxSlots * SLOT_SIZE <= WORD
    ensures var r := Rehashed(t, oldBase, newBase, n);
      && WellFormed(r.table) && |r.table| == n && Occupied(r.table) == Kept(t, n)
      && AllName(Contents(r.table), newBase, maxSlots)
      && (!Loses(t, n) ==> r.ok && Ids(r.table, newBase, maxSlots) == Ids(t, oldBase, maxSlots))
      && (Loses(t, n) ==> Fewer(Ids(r.table, newBase, maxSlots), Ids(t, oldBase, maxSlots)))
      && (r.ok && Loses(t, n) ==> Kept(t, n) == n < Occupied(t))
  {
    var es := Compact(t);
    var fixedEs := FixedEntries(es, oldBase, newBase);
    var r := Rehashed(t, oldBase, newBase, n);
    CompactContents(t);
    CompactCount(t);
    KeptMeans(t, n);
    FixedDistinct(es, oldBase, newBase, maxSlots);
    ReinsertExact(seq(n, _ => EMPTY), fixedEs);
    PlacedByKeys(n, es, fixedEs);
    ContentsCount(r.table);
    MapOfCount(fixedEs);
    FixedIds(es, oldBase, newBase, maxSlots);
    assert Submap(Contents(r.table), MapOf(fixedEs));
    SubmapIds(Contents(r.table), MapOf(fixedEs), newBase, maxSlots);
  }

  /** Strictly fewer keys, each with the slot it had. */
  ghost predicate Fewer<V>(a: map<Word, V>, b: map<Word, V>) {
    |a| < |b| && forall k: Word :: k in a ==> k in b && a[k] == b[k]
  }

  ghost function Mapped<V, W>(m: map<Word, V>, f: V -> W): map<Word, W> {
    map k | k in m :: f(m[k])
  }

  lemma MappedUpdate<V, W>(m: map<Word, V>, key: Word, v: V, f: V -> W)
    ensures Mapped(m[key := v], f) == Mapped(m, f)[key := f(v)]
    ensures |m[key := v]| == |m| + if key in m then 0 else 1
  {
    assert key in m ==> m[key := v].Keys == m.Keys;
    assert key !in m ==> m[key := v].Keys == m.Keys + {key};
  }

  lemma MappedMinus<V, W>(m: map<Word, V>, key: Word, f: V -> W)
    ensures Mapped(m - {key}, f) == Mapped(m, f) - {key}
    ensures |m - {key}| == |m| - if key in m then 1 else 0
  {
    assert (m - {key}).Keys == m.Keys - {key};
  }

  function Namer(base: nat, maxSlots: nat): Word -> Option<nat> {
    (offset: Word) => Names(base, maxSlots, offset)
  }

  /** The slot that each key of a map of offsets names. */
  ghost function IdsOf(m: map<Word, Word>, base: nat, maxSlots: nat): map<Word, Option<nat>> {
    Mapped(m, Namer(base, maxSlots))
  }

  lemma FixedIds(es: seq<Entry>, oldBase: nat, newBase: nat, maxSlots: nat)
    requires AllName(MapOf(es), oldBase, maxSlots)
    requires oldBase > 0 && newBase > 0 && newBase + maxSlots * SLOT_SIZE <= WORD
    ensures IdsOf(MapOf(FixedEntries(es, oldBase, newBase)), newBase, maxSlots) == IdsOf(MapOf(es), oldBase, maxSlots)
    ensures AllName(MapOf(FixedEntries(es, oldBase, newBase)), newBase, maxSlots)
  {
    forall k: Word
      ensures k in MapOf(FixedEntries(es, oldBase, newBase)) <==> k in MapOf(es)
      ensures k in MapOf(es) ==>
                Names(newBase, maxSlots, MapOf(FixedEntries(es, oldBase, newBase))[k]) == Names(oldBase, maxSlots,
                    MapOf(es)[k])
    {
      FixedMap(es, oldBase, newBase, k);
      if k in MapOf(es) {
        FixedNames(MapOf(es)[k], oldBase, newBase, maxSlots);
      }
    }
  }

  lemma SubmapIds(a: map<Word, Word>, b: map<Word, Word>, base: nat, maxSlots: nat)
    requires Submap(a, b) && AllName(b, base, maxSlots)
    ensures AllName(a, base, maxSlots)
    ensures |a| < |b| ==> Fewer(IdsOf(a, base, maxSlots), IdsOf(b, base, maxSlots))
  {
    assert IdsOf(a, base, maxSlots).Keys == a.Keys;
    assert IdsOf(b, base, maxSlots).Keys == b.Keys;
  }

  /** An insertion in terms of slots: what `PutEffect` says, and the counter. */
  lemma PutMeaning(t: seq<Entry>, key: Word, offset: Word, slotId: nat, base: nat, maxSlots: nat)
    returns (lost: Option<Word>)
    requires |t| > 0 && offset != 0 && WellFormed(t)
    requires AllName(Contents(t), base, maxSlots) && Names(base, maxSlots, offset) == Some(slotId)
    ensures var r := RobinHoodPut.Put(t, key, offset);
      var ids := Ids(t, base, maxSlots);
      && WellFormed(r.table) && AllName(Contents(r.table), base, maxSlots)
      && Ids(r.table, base, maxSlots) == Minus(ids[key := Some(slotId)], lost)
      && (lost.Some? <==> key !in ids && (|ids| < |t| ==> KeyHazard(|t|, ids.Keys, Home(|t|, key))))
      && (lost.Some? ==> lost.value in ids || lost.value == key)
      && (r.Stored? ==> lost != Some(key) && (r.added <==> key !in ids && |ids| < |t|))
      && (key in ids || |ids| < |t| ==> lost != Some(key) && (r.Stored? <==> lost.None?))
  {
    lost := PutEffect(t, key, offset);
    IdsCount(t, base, maxSlots);
    NoEmptyCount(t);
    if HasEmpty(t) {
      HazardByKeys(t, Home(|t|, key));
    }
    NamedUpdate(Contents(t), key, offset, slotId, base, maxSlots);
    if lost.Some? {
      NamedMinus(Contents(t)[key := offset], lost.value, base, maxSlots);
    }
  }

  /** As many keys as taken buckets. */
  lemma IdsCount(t: seq<Entry>, base: nat, maxSlots: nat)
    requires Unique(t)
    ensures Ids(t, base, maxSlots).Keys == Contents(t).Keys && |Ids(t, base, maxSlots)| == Occupied(t) <= |t|
  {
    ContentsCount(t);
    OccupiedBound(t);
    assert Ids(t, base, maxSlots).Keys == Contents(t).Keys;
    assert |Ids(t, base, maxSlots).Keys| == |Contents(t).Keys|;
  }

  lemma NamedUpdate(m: map<Word, Word>, key: Word, offset: Word, slotId: nat, base: nat, maxSlots: nat)
    requires AllName(m, base, maxSlots) && Names(base, maxSlots, offset) == Some(slotId)
    ensures AllName(m[key := offset], base, maxSlots)
    ensures IdsOf(m[key := offset], base, maxSlots) == IdsOf(m, base, maxSlots)[key := Some(slotId)]
    ensures |m[key := offset]| == |m| + if key in m then 0 else 1
  {
    MappedUpdate(m, key, offset, Namer(base, maxSlots));
  }

  lemma NamedMinus(m: map<Word, Word>, key: Word, base: nat, maxSlots: nat)
    requires AllName(m, base, maxSlots)
    ensures AllName(m - {key}, base, maxSlots)
    ensures IdsOf(m - {key}, base, maxSlots) == IdsOf(m, base, maxSlots) - {key}
    ensures |m - {key}| == |m| - if key in m then 1 else 0
  {
    MappedMinus(m, key, Namer(base, maxSlots));
  }

  /** An ordered table whose offsets all name slots, and the map from keys to slots that it stands for. */
  ghost predicate StandsFor(t: seq<Entry>, base: nat, maxSlots: nat, m: map<Word, Option<nat>>) {
    m == Ids(t, base, maxSlots) && WellFormed(t) && AllName(Contents(t), base, maxSlots)
  }

  lemma OneKeyLess<V>(m: map<Word, V>, key: Word)
    ensures |m - {key}| == |m| - if key in m then 1 else 0
  {
    assert (m - {key}).Keys == m.Keys - {key};
  }

  /** A removal in terms of slots. */
  lemma RemoveMeaning(t: seq<Entry>, key: Word, base: nat, maxSlots: nat, m: map<Word, Option<nat>>)
    requires |t| > 0 && StandsFor(t, base, maxSlots, m)
    ensures var r := RobinHoodRemove.Remove(t, key);
      && (r.Some? <==> key in m) && (r.Some? ==> StandsFor(r.value, base, maxSlots, m - {key}))
    ensures key !in m ==> m - {key} == m
  {
    RemoveCorrect(t, key);
    NamedMinus(Contents(t), key, base, maxSlots);
    assert m.Keys == Contents(t).Keys;
    if key !in m {
      NoKeyNoChange(m, key);
    }
  }

  lemma NoKeyNoChange<V>(m: map<Word, V>, key: Word)
    requires key !in m
    ensures m - {key} == m
  {
  }

  lemma NoKeyNames(t: seq<Entry>, offset: Word, slotId: nat, base: nat, maxSlots: nat)
    requires Unique(t) && base > 0 && slotId < maxSlots && offset == SlotToOffset(base, maxSlots, slotId)
    requires forall b: nat :: b < |t| ==> t[b].slot != offset
    ensures Some(slotId) !in Ids(t, base, maxSlots).Values
  {
    forall k | k in Contents(t)
      ensures Ids(t, base, maxSlots)[k] != Some(slotId)
    {
      var b := BucketOf(t, k);
      ContentsHas(t, k, b);
      OffsetRoundTrip(base, maxSlots, slotId, t[b].slot);
    }
  }

  // ---------- What a moved slot region means ----------

  /** Every slot has moved whole, its old checksum included, with its link fixed up. */
  ghost predicate SlotsMoved(m: seq<Word>, capacity: nat, m': seq<Word>, capacity': nat, maxSlots: nat)
    requires SlotAt(capacity, maxSlots) <= |m| && SlotAt(capacity', maxSlots) <= |m'|
  {
    forall id: nat :: id < maxSlots ==>
      SlotWords(m', capacity', id) == FixedSlot(SlotWords(m, capacity, id), SlotsBase(capacity), SlotsBase(capacity'))
  }

  const HALF: nat := 0x1_0000_0000

  /** The status of a slot is the low half of its first word, the checksum the high half. */
  function StatusIn(s: seq<Word>): nat
    requires |s| == SLOT_WORDS
  {
    s[0] % HALF
  }

  function CrcIn(s: seq<Word>): nat
    requires |s| == SLOT_WORDS
  {
    s[0] / HALF
  }

  /** Words as the bytes that they are in memory. */
  function BytesOf(ws: seq<Word>): (r: seq<Slots.Byte>)
    ensures |r| == 8 * |ws|
  {
    if ws == [] then [] else Slots.LittleEndian(ws[0], 8) + BytesOf(ws[1..])
  }

  /** The slot that the eight words hold. */
  function Decode(s: seq<Word>): Slots.Slot
    requires |s| == SLOT_WORDS
  {
    Slots.Slot.Slot(StatusIn(s), CrcIn(s), BytesOf(s[1..NEXT_WORD]), s[NEXT_WORD])
  }

  lemma {:induction false} BytesJoin(a: seq<Word>, b: seq<Word>)
    ensures BytesOf(a + b) == BytesOf(a) + BytesOf(b)
  {
    if a == [] {
      assert a + b == b;
    } else {
      assert (a + b)[0] == a[0] && (a + b)[1..] == a[1..] + b;
      BytesJoin(a[1..], b);
    }
  }

  lemma WordReadsBack(w: Word)
    ensures Slots.Number(Slots.LittleEndian(w, 8)) == w
  {
    Slots.Spans();
    Slots.BytesRoundTrip(w, 8);
  }

  lemma BytesOfOne(w: Word)
    ensures BytesOf([w]) == Slots.LittleEndian(w, 8)
  {
    assert [w][1..] == [];
    assert BytesOf([]) == [];
  }

  /** The two halves of a word of little-endian bytes. */
  lemma HalvesOf(w: Word)
    ensures Slots.LittleEndian(w, 8) == Slots.LittleEndian(w % HALF, 4) + Slots.LittleEndian(w / HALF, 4)
  {
    Slots.Spans();
    LowBytes(w, 4, 4, HALF, w / HALF, w % HALF);
  }

  lemma {:induction false} LowBytes(n: nat, j: nat, k: nat, m: nat, q: nat, r: nat)
    requires m == Slots.Span(j) && n == m * q + r && r < m
    ensures Slots.LittleEndian(n, j + k) == Slots.LittleEndian(r, j) + Slots.LittleEndian(q, k)
  {
    if j > 0 {
      var l := Slots.Span(j - 1);
      LowDigit(n, l, q, r);
      LowBytes(n / 256, j - 1, k, l, q, r / 256);
    }
  }

  lemma LowDigit(n: nat, l: nat, q: nat, r: nat)
    requires n == (256 * l) * q + r && r < 256 * l
    ensures n % 256 == r % 256 && n / 256 == l * q + r / 256 && r / 256 < l
  {
    assert (256 * l) * q == 256 * (l * q);
  }

  /** Where the fields are in the 64 bytes: status, checksum, payload, link. */
  lemma DecodeBytes(s: seq<Word>)
    requires |s| == SLOT_WORDS
    ensures var b, d := BytesOf(s), Decode(s);
      && |b| == 64 && Slots.Number(b[..4]) == d.status && Slots.Number(b[4..8]) == d.crc
      && b[8..56] == d.payload && Slots.Number(b[56..]) == d.next
  {
    var mid := s[1..NEXT_WORD];
    assert s == [s[0]] + (mid + [s[NEXT_WORD]]);
    BytesJoin([s[0]], mid + [s[NEXT_WORD]]);
    BytesJoin(mid, [s[NEXT_WORD]]);
    BytesOfOne(s[0]);
    BytesOfOne(s[NEXT_WORD]);
    WordReadsBack(s[NEXT_WORD]);
    HalvesOf(s[0]);
    Slots.Spans();
    Slots.BytesRoundTrip(s[0] % HALF, 4);
    Slots.BytesRoundTrip(s[0] / HALF, 4);
    var b := BytesOf(s);
    assert b[..4] == Slots.LittleEndian(s[0] % HALF, 4) && b[4..8] == Slots.LittleEndian(s[0] / HALF, 4);
    assert b[8..56] == BytesOf(mid) && b[56..] == BytesOf([s[NEXT_WORD]]);
  }

  /** `ef_slot_header_crc_compute`, of what the words hold. */
  function CrcFor(c: Slots.Checksum, id: nat, s: seq<Word>): nat
    requires |s| == SLOT_WORDS
  {
    Slots.SlotCrc(c, id, Decode(s)) % HALF
  }

  /** One slot after `ef_db_refresh_slot_crcs`. */
  function Renewed(c: Slots.Checksum, id: nat, s: seq<Word>): (r: seq<Word>)
    requires |s| == SLOT_WORDS
    ensures |r| == SLOT_WORDS
  {
    if Slots.HasCrc(StatusIn(s)) then s[0 := StatusIn(s) + HALF * CrcFor(c, id, s)] else s
  }

  /** Every slot has moved, its link is fixed up, and its checksum is the one for the new link. */
  ghost predicate SlotsRenewed(c: Slots.Checksum, m: seq<Word>, capacity: nat, m': seq<Word>, capacity': nat,
      maxSlots: nat)
    requires SlotAt(capacity, maxSlots) <= |m| && SlotAt(capacity', maxSlots) <= |m'|
  {
    forall id: nat :: id < maxSlots ==>
      SlotWords(m', capacity', id)
      == Renewed(c, id, FixedSlot(SlotWords(m, capacity, id), SlotsBase(capacity), SlotsBase(capacity')))
  }

  /** Renewing keeps status, payload and link, and the slot passes the reader's test. */
  lemma RenewedMeans(c: Slots.Checksum, id: nat, s: seq<Word>)
    requires |s| == SLOT_WORDS
    ensures var d, d' := Decode(s), Decode(Renewed(c, id, s));
      && d'.status == d.status && d'.payload == d.payload && d'.next == d.next
      && (!Slots.HasCrc(d.status) ==> d'.crc == d.crc)
      && (Slots.Proper(c) ==> Slots.CrcValid(c, id, d'))
  {
    var r := Renewed(c, id, s);
    assert r[1..NEXT_WORD] == s[1..NEXT_WORD];
    if Slots.HasCrc(StatusIn(s)) {
      QuotientIsUnique(r[0], HALF, CrcFor(c, id, s), StatusIn(s));
      Slots.Spans();
    }
  }

  /** Every slot passes the reader's test. */
  ghost predicate AllGood(c: Slots.Checksum, m: seq<Word>, capacity: nat, maxSlots: nat)
    requires SlotAt(capacity, maxSlots) <= |m|
  {
    forall id: nat :: id < maxSlots ==> Slots.CrcValid(c, id, Decode(SlotWords(m, capacity, id)))
  }

  lemma RenewedAreGood(c: Slots.Checksum, m: seq<Word>, capacity: nat, m': seq<Word>, capacity': nat, maxSlots: nat)
    requires SlotAt(capacity, maxSlots) <= |m| && SlotAt(capacity', maxSlots) <= |m'|
    requires SlotsRenewed(c, m, capacity, m', capacity', maxSlots) && Slots.Proper(c)
    ensures AllGood(c, m', capacity', maxSlots)
  {
    forall id: nat | id < maxSlots ensures Slots.CrcValid(c, id, Decode(SlotWords(m', capacity', id))) {
      RenewedMeans(c, id, FixedSlot(SlotWords(m, capacity, id), SlotsBase(capacity), SlotsBase(capacity')));
    }
  }

  /** The loop of `ef_db_refresh_slot_crcs`. */
  method RefreshChecksums(mem: array<Word>, c: Slots.Checksum, capacity: nat, maxSlots: nat)
    requires SlotAt(capacity, maxSlots) <= mem.Length
    modifies mem
    ensures Table(mem[..], capacity) == old(Table(mem[..], capacity))
    ensures forall id: nat :: id < maxSlots ==>
      SlotWords(mem[..], capacity, id) == Renewed(c, id, old(SlotWords(mem[..], capacity, id)))
  {
    ghost var m := mem[..];
    for i := 0 to maxSlots
      invariant forall j: nat :: j < 2 * capacity ==> mem[j] == m[j]
      invariant forall id: nat :: id < i ==>
        SlotWords(mem[..], capacity, id) == Renewed(c, id, SlotWords(m, capacity, id))
      invariant forall id: nat :: i <= id < maxSlots ==> SlotWords(mem[..], capacity, id) == SlotWords(m, capacity, id)
    {
      var at := SlotAt(capacity, i);
      var s := mem[at..at + SLOT_WORDS];
      ghost var before := mem[..];
      assert s == SlotWords(before, capacity, i);
      if Slots.HasCrc(StatusIn(s)) {
        mem[at] := StatusIn(s) + HALF * CrcFor(c, i, s);
      }
      forall id: nat | id < maxSlots
        ensures SlotWords(mem[..], capacity, id)
             == if id == i then Renewed(c, i, SlotWords(before, capacity, i)) else SlotWords(before, capacity, id)
      {
        FirstWordUpdate(before, capacity, i, id, mem[at]);
        assert mem[..] == before[at := mem[at]];
      }
    }
  }

  lemma FirstWordUpdate(m: seq<Word>, capacity: nat, i: nat, id: nat, w: Word)
    requires SlotAt(capacity, i) + SLOT_WORDS <= |m| && SlotAt(capacity, id) + SLOT_WORDS <= |m|
    ensures SlotWords(m[SlotAt(capacity, i) := w], capacity, id)
         == if id == i then SlotWords(m, capacity, id)[0 := w] else SlotWords(m, capacity, id)
  {
  }

  // ---------- Links ----------

  /** The link word of a slot. */
  function LinkIn(m: seq<Word>, capacity: nat, id: nat): Word
    requires SlotAt(capacity, id) + SLOT_WORDS <= |m|
  {
    m[SlotAt(capacity, id) + NEXT_WORD]
  }

  /** A link is zero or names a slot. */
  ghost predicate LinkOk(base: nat, maxSlots: nat, offset: nat) {
    offset == 0 || Names(base, maxSlots, offset).Some?
  }

  ghost predicate LinksOk(m: seq<Word>, capacity: nat, maxSlots: nat)
    requires SlotAt(capacity, maxSlots) <= |m|
  {
    forall id: nat :: id < maxSlots ==> LinkOk(SlotsBase(capacity), maxSlots, LinkIn(m, capacity, id))
  }

  /** Links of the two slot regions name the same slots. */
  ghost predicate LinksKept(m: seq<Word>, capacity: nat, m': seq<Word>, capacity': nat, maxSlots: nat)
    requires SlotAt(capacity, maxSlots) <= |m| && SlotAt(capacity', maxSlots) <= |m'|
  {
    forall id: nat :: id < maxSlots ==>
      Names(SlotsBase(capacity'), maxSlots, LinkIn(m', capacity', id))
      == Names(SlotsBase(capacity), maxSlots, LinkIn(m, capacity, id))
  }

  /** A link that is zero or names a slot is never a stray: after the fixup it names the same slot. */
  lemma LinkFixed(offset: Word, oldBase: nat, newBase: nat, maxSlots: nat)
    requires oldBase > 0 && newBase > 0 && newBase + maxSlots * SLOT_SIZE <= WORD
    requires LinkOk(oldBase, maxSlots, offset)
    ensures LinkOk(newBase, maxSlots, Fixup(offset, oldBase, newBase))
    ensures Names(newBase, maxSlots, Fixup(offset, oldBase, newBase)) == Names(oldBase, maxSlots, offset)
  {
    if offset != 0 {
      FixupKeepsNames(offset, oldBase, newBase, maxSlots);
    }
  }

  /**
   One slot after the move: status and payload are the same, and its link names the old slot unless it was a stray.
   */
  lemma MovedSlotMeans(m: seq<Word>, capacity: nat, m': seq<Word>, capacity': nat, maxSlots: nat, id: nat)
    requires SlotAt(capacity, maxSlots) <= |m| && SlotAt(capacity', maxSlots) <= |m'| && id < maxSlots
    requires SlotsMoved(m, capacity, m', capacity', maxSlots)
    requires SlotsBase(capacity') + maxSlots * SLOT_SIZE <= WORD
    ensures SlotWords(m', capacity', id)[..NEXT_WORD] == SlotWords(m, capacity, id)[..NEXT_WORD]
    ensures Names(SlotsBase(capacity'), maxSlots, LinkIn(m', capacity', id))
         == Names(SlotsBase(capacity), maxSlots, LinkIn(m, capacity, id))
       <==> !Stray(LinkIn(m, capacity, id), SlotsBase(capacity), SlotsBase(capacity'), maxSlots)
  {
    var s, s' := SlotWords(m, capacity, id), SlotWords(m', capacity', id);
    assert LinkIn(m, capacity, id) == s[NEXT_WORD] && LinkIn(m', capacity', id) == s'[NEXT_WORD];
    FixupKeepsNames(s[NEXT_WORD], SlotsBase(capacity), SlotsBase(capacity'), maxSlots);
  }

  /** What a moved slot region means: every link of a sound heap names the slot that it named. */
  lemma MovedLinks(c: Slots.Checksum, m: seq<Word>, capacity: nat, m': seq<Word>, capacity': nat, maxSlots: nat)
    requires SlotAt(capacity, maxSlots) <= |m| && SlotAt(capacity', maxSlots) <= |m'|
    requires SlotsMoved(m, capacity, m', capacity', maxSlots) || SlotsRenewed(c, m, capacity, m', capacity', maxSlots)
    requires SlotsBase(capacity') + maxSlots * SLOT_SIZE <= WORD && LinksOk(m, capacity, maxSlots)
    ensures LinksOk(m', capacity', maxSlots) && LinksKept(m, capacity, m', capacity', maxSlots)
  {
    forall id: nat | id < maxSlots
      ensures LinkIn(m', capacity', id)
           == Fixup(LinkIn(m, capacity, id), SlotsBase(capacity), SlotsBase(capacity'))
    {
      var s, s' := SlotWords(m, capacity, id), SlotWords(m', capacity', id);
      assert LinkIn(m, capacity, id) == s[NEXT_WORD] && LinkIn(m', capacity', id) == s'[NEXT_WORD];
    }
    forall id: nat | id < maxSlots
      ensures LinkOk(SlotsBase(capacity'), maxSlots, LinkIn(m', capacity', id))
      ensures Names(SlotsBase(capacity'), maxSlots, LinkIn(m', capacity', id))
           == Names(SlotsBase(capacity), maxSlots, LinkIn(m, capacity, id))
    {
      LinkFixed(LinkIn(m, capacity, id), SlotsBase(capacity), SlotsBase(capacity'), maxSlots);
    }
  }

  /** Writes to the table alone leave the links alone. */
  lemma LinksBeyond(m: seq<Word>, m': seq<Word>, capacity: nat, maxSlots: nat)
    requires SlotAt(capacity, maxSlots) <= |m| && SameBeyond(m, m', 2 * capacity) && LinksOk(m, capacity, maxSlots)
    ensures LinksOk(m', capacity, maxSlots)
  {
    forall id: nat | id < maxSlots ensures LinkIn(m', capacity, id) == LinkIn(m, capacity, id) {
    }
  }

  /** A slot as its users see it: status, payload, and the slot that its link names. */
  datatype SlotView = SlotView(status: nat, payload: seq<Slots.Byte>, link: Option<nat>)

  function SlotSeen(m: seq<Word>, capacity: nat, maxSlots: nat, id: nat): SlotView
    requires SlotAt(capacity, id) + SLOT_WORDS <= |m|
  {
    var d := Decode(SlotWords(m, capacity, id));
    SlotView(d.status, d.payload, Names(SlotsBase(capacity), maxSlots, d.next))
  }

  /** All slots, wherever the capacity puts them. */
  function Seen(m: seq<Word>, capacity: nat, maxSlots: nat): (r: seq<SlotView>)
    requires SlotAt(capacity, maxSlots) <= |m|
    ensures |r| == maxSlots
  {
    seq(maxSlots, id requires 0 <= id < maxSlots => SlotSeen(m, capacity, maxSlots, id))
  }

  lemma SeenBeyond(m: seq<Word>, m': seq<Word>, capacity: nat, maxSlots: nat)
    requires SlotAt(capacity, maxSlots) <= |m| && SameBeyond(m, m', 2 * capacity)
    ensures Seen(m', capacity, maxSlots) == Seen(m, capacity, maxSlots)
  {
    forall id: nat | id < maxSlots ensures SlotWords(m', capacity, id) == SlotWords(m, capacity, id) {
    }
  }

  /** The move of the slot region changes nothing that their users see. */
  lemma SeenMoved(c: Slots.Checksum, m: seq<Word>, capacity: nat, m': seq<Word>, capacity': nat, maxSlots: nat)
    requires SlotAt(capacity, maxSlots) <= |m| && SlotAt(capacity', maxSlots) <= |m'|
    requires SlotsMoved(m, capacity, m', capacity', maxSlots) || SlotsRenewed(c, m, capacity, m', capacity', maxSlots)
    requires LinksKept(m, capacity, m', capacity', maxSlots)
    ensures Seen(m', capacity', maxSlots) == Seen(m, capacity, maxSlots)
  {
    forall id: nat | id < maxSlots
      ensures SlotSeen(m', capacity', maxSlots, id) == SlotSeen(m, capacity, maxSlots, id)
    {
      var s, s' := SlotWords(m, capacity, id), SlotWords(m', capacity', id);
      assert LinkIn(m, capacity, id) == s[NEXT_WORD] && LinkIn(m', capacity', id) == s'[NEXT_WORD];
      var f := FixedSlot(s, SlotsBase(capacity), SlotsBase(capacity'));
      assert f[1..NEXT_WORD] == s[1..NEXT_WORD];
      RenewedMeans(c, id, f);
    }
  }

  /** A stray at an input: shrinking from 32 to 16 entries, offset 320 named no slot and comes to name one. */
  lemma StrayWitness(maxSlots: nat)
    requires 0 < maxSlots
    ensures SlotsBase(32) == 576 && SlotsBase(16) == 320 && Stray(320, 576, 320, maxSlots)
    ensures Names(576, maxSlots, 320) == None && Names(320, maxSlots, Fixup(320, 576, 320)) == Some(0)
  {
  }

  lemma TablePrefix(m: seq<Word>, m': seq<Word>, n: nat)
    requires 2 * n <= |m| && 2 * n <= |m'| && m'[..2 * n] == m[..2 * n]
    ensures Table(m', n) == Table(m, n)
  {
    forall j: nat | j < 2 * n ensures m'[j] == m[j] {
      assert m'[..2 * n][j] == m[..2 * n][j];
    }
  }

  /** A smaller table over the same words is the first buckets; a larger one has the taken buckets and perhaps more. */
  lemma Recount(m: seq<Word>, a: nat, b: nat)
    requires a <= b && 2 * b <= |m|
    ensures Table(m, a) == Table(m, b)[..a]
    ensures Occupied(Table(m, a)) <= Occupied(Table(m, b))
  {
    OccupiedPrefix(Table(m, b), a);
  }

  lemma {:induction false} OccupiedPrefix(t: seq<Entry>, k: nat)
    requires k <= |t|
    ensures Occupied(t[..k]) <= Occupied(t)
  {
    if k < |t| {
      OccupiedPrefix(t[..|t| - 1], k);
      assert t[..|t| - 1][..k] == t[..k];
    } else {
      assert t[..k] == t;
    }
  }

  lemma MovedSlot(m: seq<Word>, capacity: nat, m': seq<Word>, capacity': nat, maxSlots: nat, id: nat)
    requires id < maxSlots
    requires SlotAt(capacity, maxSlots) <= |m| && SlotAt(capacity', maxSlots) <= |m'|
    requires m'[SlotAt(capacity', 0)..SlotAt(capacity', maxSlots)] == m[SlotAt(capacity, 0)..SlotAt(capacity, maxSlots)]
    ensures SlotWords(m', capacity', id) == SlotWords(m, capacity, id)
  {
    SliceOfSlice(m, SlotAt(capacity, 0), SlotAt(capacity, maxSlots), SLOT_WORDS * id, SLOT_WORDS * id + SLOT_WORDS);
    SliceOfSlice(m', SlotAt(capacity', 0), SlotAt(capacity', maxSlots), SLOT_WORDS * id, SLOT_WORDS * id + SLOT_WORDS);
  }

  lemma SlotBeyondTable(m: seq<Word>, m': seq<Word>, capacity: nat, id: nat)
    requires SameBeyond(m, m', 2 * capacity) && SlotAt(capacity, id) + SLOT_WORDS <= |m|
    ensures SlotWords(m', capacity, id) == SlotWords(m, capacity, id)
  {
  }

  /**
   The data movement of a rehash: slots move, links are rewritten, the table is rebuilt.
   `garbage` is the entry count that binding the new layout finds before the table is cleared: it counts the words
   that the old table, and when growing the old slots, have left there.
   */
  method Relocate(mem: array<Word>, oldCapacity: nat, newCapacity: nat, maxSlots: nat)
    returns (err: Err, garbage: nat, live: nat)
    requires SlotAt(oldCapacity, maxSlots) <= mem.Length && SlotAt(newCapacity, maxSlots) <= mem.Length
    requires newCapacity > 0 && PowerOfTwo(newCapacity)
    modifies mem
    ensures SlotsMoved(old(mem[..]), oldCapacity, mem[..], newCapacity, maxSlots)
    ensures var r := Rehashed(old(Table(mem[..], oldCapacity)), SlotsBase(oldCapacity), SlotsBase(newCapacity),
        newCapacity);
            Table(mem[..], newCapacity) == r.table && err == (if r.ok then Ok else IndexFull)
    ensures live == old(Occupied(Table(mem[..], oldCapacity)))
    ensures garbage == old(Occupied(Table(mem[..], newCapacity)))
  {
    var oldBase, newBase := SlotsBase(oldCapacity), SlotsBase(newCapacity);
    var backup := Collect(mem, oldCapacity);
    CompactCount(Table(mem[..], oldCapacity));
    live := |backup|;
    garbage := MoveSlots(mem, oldCapacity, newCapacity, maxSlots);
    err := Refill(mem, newCapacity, maxSlots, FixedEntries(backup, oldBase, newBase));
  }

  /** The slots move behind the new table, the new layout is counted, and the links are rewritten. */
  method MoveSlots(mem: array<Word>, oldCapacity: nat, newCapacity: nat, maxSlots: nat) returns (garbage: nat)
    requires SlotAt(oldCapacity, maxSlots) <= mem.Length && SlotAt(newCapacity, maxSlots) <= mem.Length
    modifies mem
    ensures SlotsMoved(old(mem[..]), oldCapacity, mem[..], newCapacity, maxSlots)
    ensures garbage == old(Occupied(Table(mem[..], newCapacity)))
  {
    ghost var m := mem[..];
    MemMove(mem, SlotAt(newCapacity, 0), SlotAt(oldCapacity, 0), SLOT_WORDS * maxSlots);
    forall id: nat | id < maxSlots
      ensures SlotWords(mem[..], newCapacity, id) == SlotWords(m, oldCapacity, id)
    {
      MovedSlot(m, oldCapacity, mem[..], newCapacity, maxSlots, id);
    }
    garbage := CountEntries(mem, newCapacity);
    TablePrefix(m, mem[..], newCapacity);
    FixSlots(mem, newCapacity, maxSlots, SlotsBase(oldCapacity), SlotsBase(newCapacity));
  }

  /** The table is cleared and the entries are inserted again. The slots behind it stay as they are. */
  method Refill(mem: array<Word>, n: nat, maxSlots: nat, es: seq<Entry>) returns (err: Err)
    requires SlotAt(n, maxSlots) <= mem.Length && n > 0 && PowerOfTwo(n)
    modifies mem
    ensures forall id: nat :: id < maxSlots ==> SlotWords(mem[..], n, id) == SlotWords(old(mem[..]), n, id)
    ensures var r := Reinsert(seq(n, _ => EMPTY), es);
      Table(mem[..], n) == r.table && err == (if r.ok then Ok else IndexFull)
  {
    ghost var placed := mem[..];
    ClearTable(mem, n);
    ghost var cleared := mem[..];
    assert Table(cleared, n) == seq(n, _ => EMPTY);
    err := InsertAll(mem, n, es);
    forall id: nat | id < maxSlots
      ensures SlotWords(mem[..], n, id) == SlotWords(placed, n, id)
    {
      SlotBeyondTable(placed, cleared, n, id);
      SlotBeyondTable(cleared, mem[..], n, id);
    }
  }

  /** The scan of `ef_index_remove_by_slot`: the first bucket with the offset, or `n`. */
  method FindSlot(mem: array<Word>, n: nat, offset: Word) returns (b: nat)
    requires 2 * n <= mem.Length
    ensures b <= n
    ensures b < n ==> Table(mem[..], n)[b].slot == offset
    ensures forall c: nat :: c < b ==> Table(mem[..], n)[c].slot != offset
  {
    b := 0;
    while b < n
      invariant b <= n
      invariant forall c: nat :: c < b ==> Table(mem[..], n)[c].slot != offset
    {
      var e := LoadEntry(mem, b);
      if e.slot == offset {
        return;
      }
      b := b + 1;
    }
  }
}
