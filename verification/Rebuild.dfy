/**
 The pure half of `ef_index_rehash_to`: collecting the live entries, shifting offsets to a moved slot region,
 and inserting the entries into an empty table of another capacity.
 */
module Rebuild {
  import opened Base
  import opened RobinHood
  import opened RobinHoodPut

  // ---------- Slot offsets ----------

  const SB_SIZE: nat := 64
  const ENTRY_SIZE: nat := 16
  const SLOT_SIZE: nat := 64

  /** Where the slot region starts when the hash region has `capacity` entries. */
  function SlotsBase(capacity: nat): nat {
    SB_SIZE + capacity * ENTRY_SIZE
  }

  /** `ef_slot_to_offset`: zero stands for no slot. */
  function SlotToOffset(base: nat, maxSlots: nat, id: nat): nat {
    if id >= maxSlots then 0 else base + id * SLOT_SIZE
  }

  datatype SlotRef = Slot(id: nat) | Bad(err: Err)

  /** `ef_offset_to_slot_id`. */
  function OffsetToSlotId(base: nat, maxSlots: nat, offset: nat): SlotRef {
    if offset < base then Bad(Offset)
    else if (offset - base) % SLOT_SIZE != 0 then Bad(Offset)
    else if (offset - base) / SLOT_SIZE >= maxSlots then Bad(SlotId)
    else Slot((offset - base) / SLOT_SIZE)
  }

  /** The slot that an offset names, if any. */
  function Names(base: nat, maxSlots: nat, offset: nat): Option<nat> {
    match OffsetToSlotId(base, maxSlots, offset)
    case Slot(id) => Some(id)
    case Bad(_) => None
  }

  /** Offsets and slot ids are inverse to each other. */
  lemma OffsetRoundTrip(base: nat, maxSlots: nat, id: nat, offset: nat)
    requires base > 0
    ensures id < maxSlots ==> Names(base, maxSlots, SlotToOffset(base, maxSlots, id)) == Some(id)
    ensures id >= maxSlots ==> Names(base, maxSlots, SlotToOffset(base, maxSlots, id)) == None
    ensures Names(base, maxSlots, offset) == Some(id) <==> id < maxSlots && offset == SlotToOffset(base, maxSlots, id)
  {
  }

  /** Which offsets name no slot, and how they are reported: off the grid of slots, or behind the last one. */
  lemma OffsetOutcome(base: nat, maxSlots: nat, offset: nat)
    ensures var r := OffsetToSlotId(base, maxSlots, offset);
      && (r == Bad(Offset) <==> offset < base || (offset - base) % 64 != 0)
      && (r == Bad(SlotId) <==> offset >= base + 64 * maxSlots && (offset - base) % 64 == 0)
      && (r.Slot? <==> exists id: nat :: id < maxSlots && offset == base + 64 * id)
      && (r.Slot? ==> offset == base + 64 * r.id && r.id < maxSlots)
  {
    var r := OffsetToSlotId(base, maxSlots, offset);
    if r.Slot? {
      assert offset == base + 64 * r.id;
    }
    if id: nat :| id < maxSlots && offset == base + 64 * id {
      assert (offset - base) / 64 == id;
    }
  }

  /** `ef_index_fixup_offset`, in 64-bit arithmetic. */
  function Fixup(offset: Word, oldBase: nat, newBase: nat): Word {
    if offset == 0 || offset < oldBase then offset
    else AddWord(offset, newBase - oldBase)
  }

  /** An offset that lies below the old slot region but names a slot of the new one. */
  predicate Stray(offset: nat, oldBase: nat, newBase: nat, maxSlots: nat) {
    newBase <= offset < oldBase && Names(newBase, maxSlots, offset).Some?
  }

  /**
   After the slot region has moved, a fixed-up offset names the slot that the old one named, if and only if the
   old one was not a stray. When the region moves up there are no strays.
   */
  lemma FixupKeepsNames(offset: Word, oldBase: nat, newBase: nat, maxSlots: nat)
    requires oldBase > 0 && newBase > 0 && newBase + maxSlots * SLOT_SIZE <= WORD
    ensures Names(newBase, maxSlots, Fixup(offset, oldBase, newBase)) == Names(oldBase, maxSlots, offset)
       <==> !Stray(offset, oldBase, newBase, maxSlots)
    ensures oldBase <= newBase ==> !Stray(offset, oldBase, newBase, maxSlots)
  {
    if offset >= oldBase {
      var moved := offset + (newBase - oldBase);
      if moved < WORD {
        assert Fixup(offset, oldBase, newBase) == moved;
        assert moved - newBase == offset - oldBase;
      } else {
        assert Fixup(offset, oldBase, newBase) == moved - WORD;
      }
    }
  }

  // ---------- Collecting the live entries ----------

  /** The occupied buckets, in bucket order. */
  function Compact(t: seq<Entry>): seq<Entry> {
    if t == [] then []
    else
      var rest := Compact(t[..|t| - 1]);
      if Empty(t[|t| - 1]) then rest else rest + [t[|t| - 1]]
  }

  lemma {:induction false} CompactCount(t: seq<Entry>)
    ensures |Compact(t)| == Occupied(t)
  {
    if t != [] {
      CompactCount(t[..|t| - 1]);
    }
  }

  /** The map that a list of entries stands for; a later entry wins. */
  ghost function MapOf(es: seq<Entry>): map<Word, Word> {
    if es == [] then map[] else MapOf(es[..|es| - 1])[es[|es| - 1].key := es[|es| - 1].slot]
  }

  ghost predicate DistinctKeys(es: seq<Entry>) {
    && (forall i: nat :: i < |es| ==> !Empty(es[i]))
    && forall i: nat, j: nat :: i < j < |es| ==> es[i].key != es[j].key
  }

  lemma {:induction false} MapOfKeys(es: seq<Entry>, k: Word)
    ensures k in MapOf(es) <==> exists i: nat :: i < |es| && es[i].key == k
  {
    if es != [] {
      var u := es[..|es| - 1];
      MapOfKeys(u, k);
      if k in MapOf(u) {
        var i: nat :| i < |u| && u[i].key == k;
        assert es[i].key == k;
      }
      if i: nat :| i < |es| && es[i].key == k {
        assert i < |u| ==> u[i].key == k;
      }
    }
  }

  lemma PrefixDistinct(es: seq<Entry>)
    requires DistinctKeys(es) && es != []
    ensures DistinctKeys(es[..|es| - 1]) && es[|es| - 1].key !in MapOf(es[..|es| - 1])
  {
    MapOfKeys(es[..|es| - 1], es[|es| - 1].key);
  }

  lemma {:induction false} MapOfCount(es: seq<Entry>)
    requires DistinctKeys(es)
    ensures |MapOf(es)| == |es|
  {
    if es != [] {
      PrefixDistinct(es);
      MapOfCount(es[..|es| - 1]);
    }
  }

  lemma SnocContents(t: seq<Entry>)
    requires t != [] && Unique(t)
    ensures Unique(t[..|t| - 1])
    ensures Contents(t) == With(Contents(t[..|t| - 1]), t[|t| - 1])
    ensures !Empty(t[|t| - 1]) ==> t[|t| - 1].key !in Contents(t[..|t| - 1])
  {
    var u, last := t[..|t| - 1], t[|t| - 1];
    forall k: Word, a: nat, b: nat | Holds(u, k, a) && Holds(u, k, b)
      ensures a == b
    {
      assert Holds(t, k, a) && Holds(t, k, b);
    }
    forall k: Word
      ensures k in Contents(t) <==> k in With(Contents(u), last)
      ensures k in Contents(t) ==> Contents(t)[k] == With(Contents(u), last)[k]
      ensures !Empty(last) && k == last.key ==> k !in Contents(u)
    {
      SnocLookup(t, k);
    }
  }

  lemma SnocLookup(t: seq<Entry>, k: Word)
    requires t != [] && Unique(t) && Unique(t[..|t| - 1])
    ensures var u, last := t[..|t| - 1], t[|t| - 1];
      && (k in Contents(t) <==> k in With(Contents(u), last))
      && (k in Contents(t) ==> Contents(t)[k] == With(Contents(u), last)[k])
      && (!Empty(last) && k == last.key ==> k !in Contents(u))
  {
    var n := |t| - 1;
    var u := t[..n];
    if k in Contents(u) {
      var b := BucketOf(u, k);
      assert Holds(t, k, b);
      ContentsHas(t, k, b);
      ContentsHas(u, k, b);
      assert !Holds(t, k, n);
    } else if Holds(t, k, n) {
      ContentsHas(t, k, n);
    } else if k in Contents(t) {
      var b := BucketOf(t, k);
      PrefixHas(t, k, b);
    }
  }

  lemma PrefixHas(t: seq<Entry>, k: Word, b: nat)
    requires t != [] && Unique(t[..|t| - 1]) && Holds(t, k, b) && b < |t| - 1
    ensures k in Contents(t[..|t| - 1])
  {
    assert Holds(t[..|t| - 1], k, b);
    ContentsHas(t[..|t| - 1], k, b);
  }

  /** The collected entries carry the whole map, each key once. */
  lemma {:induction false} CompactContents(t: seq<Entry>)
    requires Unique(t)
    ensures DistinctKeys(Compact(t)) && MapOf(Compact(t)) == Contents(t)
  {
    if t == [] {
      assert Contents(t) == map[] by {
        forall k: Word ensures k !in Contents(t) {
          ContentsLacks(t, k);
        }
      }
    } else {
      var u, last := t[..|t| - 1], t[|t| - 1];
      SnocContents(t);
      CompactContents(u);
      if !Empty(last) {
        var es := Compact(t);
        assert es[..|es| - 1] == Compact(u);
        forall i: nat | i < |Compact(u)|
          ensures Compact(u)[i].key != last.key
        {
          MapOfKeys(Compact(u), last.key);
        }
      }
    }
  }

  // ---------- Inserting them into an empty table ----------

  datatype Rebuilt = Rebuilt(ok: bool, table: seq<Entry>)

  /** The reinsertion loop: it stops at the first insertion that fails. */
  ghost function Reinsert(t: seq<Entry>, es: seq<Entry>): (r: Rebuilt)
    requires |t| > 0
    ensures |r.table| == |t|
  {
    if es == [] then Rebuilt(true, t)
    else
      var r := Reinsert(t, es[..|es| - 1]);
      if !r.ok then r
      else
        var p := Put(r.table, es[|es| - 1].key, es[|es| - 1].slot);
        Rebuilt(p.Stored?, p.table)
  }

  ghost predicate AllEmpty(t: seq<Entry>) {
    forall b: nat :: b < |t| ==> t[b] == EMPTY
  }

  lemma AllEmptyFacts(t: seq<Entry>)
    requires AllEmpty(t)
    ensures WellFormed(t) && Contents(t) == map[]
  {
    forall k: Word ensures k !in Contents(t) {
      ContentsLacks(t, k);
    }
  }

  lemma {:induction false} AllEmptyCount(t: seq<Entry>)
    requires AllEmpty(t)
    ensures Occupied(t) == 0
  {
    if t != [] {
      AllEmptyCount(t[..|t| - 1]);
    }
  }

  /**
   Rebuilding succeeds with exactly the collected map, or it stops with an ordered table that holds strictly
   fewer of the same entries.
   */
  lemma {:induction false} ReinsertCorrect(t: seq<Entry>, es: seq<Entry>)
    requires |t| > |es| && AllEmpty(t) && DistinctKeys(es)
    ensures var r := Reinsert(t, es);
      && WellFormed(r.table)
      && (r.ok ==> Contents(r.table) == MapOf(es))
      && (!r.ok ==> Submap(Contents(r.table), MapOf(es)) && |Contents(r.table)| < |es|)
  {
    if es == [] {
      AllEmptyFacts(t);
    } else {
      var u, e := es[..|es| - 1], es[|es| - 1];
      PrefixDistinct(es);
      ReinsertCorrect(t, u);
      var r := Reinsert(t, u);
      if r.ok {
        MapOfCount(u);
        MapOfCount(es);
        ContentsCount(r.table);
        NoEmptyCount(r.table);
        PutExact(r.table, e.key, e.slot);
      }
    }
  }

  lemma PutAtHome(t: seq<Entry>, key: Word, slot: Word)
    requires |t| > 0 && Empty(t[Home(|t|, key)])
    ensures Put(t, key, slot) == Stored(t[Home(|t|, key) := Entry(key, slot)], true)
  {
  }

  lemma ReinsertLast(t: seq<Entry>, es: seq<Entry>, e: Entry)
    requires |t| > 0 && Reinsert(t, es).ok
    ensures var p := Put(Reinsert(t, es).table, e.key, e.slot);
            Reinsert(t, es + [e]) == Rebuilt(p.Stored?, p.table)
  {
    assert (es + [e])[..|es|] == es;
  }

  lemma LastAndFirstTaken(t: seq<Entry>, key: Word, slot: Word)
    requires |t| > 1 && WellFormed(t) && slot != 0 && HasEmpty(t) && Absent(t, key)
    requires Home(|t|, key) == |t| - 1 && !Empty(t[|t| - 1])
    requires !Empty(t[0]) && Home(|t|, t[0].key) == 0
    ensures Put(t, key, slot).Full?
  {
    PutExact(t, key, slot);
    assert TakenUpTo(t, 0);
    ContentsLacks(t, key);
  }

  /** Three keys that cannot be inserted in this order into an empty table of 16 buckets. */
  lemma StuckInOrder(t: seq<Entry>, e1: Entry, e2: Entry, e3: Entry)
    requires |t| == 16 && AllEmpty(t) && DistinctKeys([e1] + [e2] + [e3])
    requires Home(16, e1.key) == 15 && Home(16, e2.key) == 0 && Home(16, e3.key) == 15
    ensures !Reinsert(t, [e1] + [e2] + [e3]).ok
  {
    var es := [e1] + [e2] + [e3];
    assert es[0] == e1 && es[1] == e2 && es[2] == e3;
    PutAtHome(t, e1.key, e1.slot);
    ReinsertLast(t, [], e1);
    assert [] + [e1] == [e1];
    var t1 := t[15 := e1];
    var t2 := t1[0 := e2];
    PutAtHome(t1, e2.key, e2.slot);
    ReinsertLast(t, [e1], e2);
    ReinsertCorrect(t, [e1] + [e2]);
    assert Empty(t2[1]);
    LastAndFirstTaken(t2, e3.key, e3.slot);
    ReinsertLast(t, [e1] + [e2], e3);
  }
}
