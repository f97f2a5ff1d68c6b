/**
 A run of ordinary calls on a new index, each of which reports success, that loses keys: a removal gets stuck in the
 shrink behind it and leaves the counter too low, further keys fill the table without growing it, and the last insertion
 pushes an older key out.
 */
module Miscount {
  import opened Base
  import opened RobinHood
  import opened RobinHoodPut
  import opened IndexTable
  import opened IndexSizing
  import opened Rebuild
  import opened Hazards
  import opened IndexMemory
  import opened Index
  import RobinHoodRemove
  import Slots

  // ---------- Keys at home ----------

  function Entries(ks: seq<Word>, offset: Word): (es: seq<Entry>)
    ensures |es| == |ks|
  {
    seq(|ks|, i requires 0 <= i < |ks| => Entry(ks[i], offset))
  }

  lemma {:induction false} AtHomeHas(t: seq<Entry>, es: seq<Entry>, i: nat)
    requires |t| > 0 && i < |es| && Apart(|t|, es)
    ensures AtHome(t, es)[Home(|t|, es[i].key)] == es[i]
  {
    if i < |es| - 1 {
      AtHomeHas(t, es[..|es| - 1], i);
    }
  }

  /** Homes in ascending order. */
  ghost predicate Ascending(n: nat, es: seq<Entry>)
    requires n > 0
  {
    && (forall i: nat :: i < |es| ==> !Empty(es[i]))
    && forall i: nat, j: nat :: i < j < |es| ==> Home(n, es[i].key) < Home(n, es[j].key)
  }

  lemma AtHomeBeyond(t: seq<Entry>, es: seq<Entry>, h: nat)
    requires |t| > 0 && AllEmpty(t) && forall i: nat :: i < |es| ==> Home(|t|, es[i].key) < h
    ensures forall b: nat :: h <= b < |t| ==> AtHome(t, es)[b] == EMPTY
  {
    forall b: nat | h <= b < |t| ensures AtHome(t, es)[b] == EMPTY {
      AtHomeElsewhere(t, es, b);
    }
  }

  lemma CompactLast(w: seq<Entry>, h: nat, e: Entry)
    requires h < |w| && !Empty(e) && forall b: nat :: h <= b < |w| ==> w[b] == EMPTY
    ensures Compact(w[h := e]) == Compact(w) + [e]
  {
    var v := w[h := e];
    CompactGap(w, h, |w|);
    CompactGap(v, h + 1, |v|);
    CompactStep(v, h);
    assert v[..h] == w[..h] && v[..|v|] == v && w[..|w|] == w;
  }

  lemma AscendingPrefix(n: nat, es: seq<Entry>)
    requires n > 0 && Ascending(n, es) && es != []
    ensures var u, e := es[..|es| - 1], es[|es| - 1];
      Ascending(n, u) && !Empty(e) && forall i: nat :: i < |u| ==> Home(n, u[i].key) < Home(n, e.key)
  {
  }

  /** Collected again, they come in the order of their homes. */
  lemma {:induction false} CompactAtHome(t: seq<Entry>, es: seq<Entry>)
    requires |t| > 0 && AllEmpty(t) && Ascending(|t|, es)
    ensures Compact(AtHome(t, es)) == es
  {
    if es == [] {
      CompactGap(t, 0, |t|);
      assert t[..|t|] == t;
    } else {
      var u, e := es[..|es| - 1], es[|es| - 1];
      AscendingPrefix(|t|, es);
      CompactAtHome(t, u);
      AtHomeBeyond(t, u, Home(|t|, e.key));
      CompactLast(AtHome(t, u), Home(|t|, e.key), e);
    }
  }

  lemma RemoveAtHome(t: seq<Entry>, key: Word)
    requires |t| > 0 && var h := Home(|t|, key);
      !Empty(t[h]) && t[h].key == key && Empty(t[RobinHoodRemove.Next(|t|, h)])
    ensures RobinHoodRemove.Remove(t, key) == Some(t[Home(|t|, key) := EMPTY])
  {
  }

  /** The key of the last bucket, and one at home in the first; another for the last pushes out that of the first. */
  lemma PutDisplaces(t: seq<Entry>, key: Word, slot: Word)
    requires |t| > 1 && Home(|t|, key) == |t| - 1
    requires !Empty(t[|t| - 1]) && t[|t| - 1].key != key && Home(|t|, t[|t| - 1].key) == |t| - 1
    requires !Empty(t[0]) && t[0].key != key && Home(|t|, t[0].key) == 0
    ensures Put(t, key, slot) == Full(t[0 := Entry(key, slot)], t[0])
  {
    var n, e := |t|, Entry(key, slot);
    RestPasses(t, key, slot, e, n - 1, n - 1);
    RestSwaps(t, key, slot, e, n - 1, n, t[0 := e]);
    assert Rest(t[0 := e], key, slot, t[0], 0, n + 1) == Full(t[0 := e], t[0]);
  }

  // ---------- Calls that go home ----------

  /** An insertion that takes an empty bucket at its home. */
  method PutOne(h: Handle, key: Word, slotId: nat) returns (err: Err)
    requires h.Sound() && slotId < h.maxSlots && h.hashCapacity > 0 && key !in h.keymap
    requires !NeedsGrow(h.hashEntryCount, h.hashCapacity) && Empty(h.T()[Home(h.hashCapacity, key)])
    modifies h, h.mem
    ensures h.Sound() && err == Ok && h.hashCapacity == old(h.hashCapacity) && h.slotsBase == old(h.slotsBase)
    ensures h.T() == old(h.T())[Home(h.hashCapacity, key) :=
                                Entry(key, SlotToOffset(h.slotsBase, h.maxSlots, slotId))]
    ensures h.keymap == old(h.keymap)[key := Some(slotId)]
    ensures h.hashEntryCount == old(h.hashEntryCount) + 1
  {
    h.KeysAreBuckets();
    PutAtHome(h.T(), key, SlotToOffset(h.slotsBase, h.maxSlots, slotId));
    ghost var intact, lost;
    err, intact, lost := h.Put(key, slotId);
  }

  /** Keys that each find the bucket at home empty, and are few enough not to grow the index. */
  ghost predicate Fit(t: seq<Entry>, count: nat, keys: set<Word>, ks: seq<Word>, offset: Word)
    requires |t| > 0
  {
    && Apart(|t|, Entries(ks, offset)) && 4 * (count + |ks|) <= 3 * |t|
    && (forall i: nat :: i < |ks| ==> Empty(t[Home(|t|, ks[i])]) && ks[i] !in keys)
    && Distinct(ks)
  }

  /** The first `k` keys. */
  ghost function First(ks: seq<Word>, k: nat): set<Word> {
    set i: nat | i < k && i < |ks| :: ks[i]
  }

  lemma NextKey(ks: seq<Word>, i: nat)
    requires i < |ks| && Distinct(ks)
    ensures First(ks, i + 1) == First(ks, i) + {ks[i]} && ks[i] !in First(ks, i)
  {
  }

  lemma NextAtHome(t: seq<Entry>, es: seq<Entry>, i: nat)
    requires |t| > 0 && i < |es| && Apart(|t|, es)
    ensures AtHome(t, es[..i])[Home(|t|, es[i].key)] == t[Home(|t|, es[i].key)]
    ensures AtHome(t, es[..i + 1]) == AtHome(t, es[..i])[Home(|t|, es[i].key) := es[i]]
  {
    AtHomeElsewhere(t, es[..i], Home(|t|, es[i].key));
    assert es[..i + 1][..i] == es[..i];
  }

  lemma FitAt(t: seq<Entry>, count: nat, keys: set<Word>, ks: seq<Word>, offset: Word, i: nat)
    requires |t| > 0 && Fit(t, count, keys, ks, offset) && i < |ks|
    ensures Empty(t[Home(|t|, ks[i])]) && ks[i] !in keys && !NeedsGrow(count + i, |t|)
    ensures Entries(ks, offset)[i] == Entry(ks[i], offset)
  {
  }

  method PutAll(h: Handle, ks: seq<Word>, slotId: nat) returns (ok: bool)
    requires h.Sound() && slotId < h.maxSlots && h.hashCapacity > 0
    requires Fit(h.T(), h.hashEntryCount, h.keymap.Keys, ks, SlotToOffset(h.slotsBase, h.maxSlots, slotId))
    modifies h, h.mem
    ensures h.Sound() && ok && h.hashCapacity == old(h.hashCapacity) && h.slotsBase == old(h.slotsBase)
    ensures h.T() == AtHome(old(h.T()), Entries(ks, SlotToOffset(h.slotsBase, h.maxSlots, slotId)))
    ensures h.keymap.Keys == old(h.keymap.Keys) + First(ks, |ks|)
    ensures h.hashEntryCount == old(h.hashEntryCount) + |ks|
  {
    ok := true;
    ghost var t, n, base, count, keys := h.T(), h.hashCapacity, h.slotsBase, h.hashEntryCount, h.keymap.Keys;
    ghost var offset := SlotToOffset(base, h.maxSlots, slotId);
    ghost var es := Entries(ks, offset);
    for i := 0 to |ks|
      invariant h.Sound() && ok && h.hashCapacity == n && h.slotsBase == base
      invariant h.T() == AtHome(t, es[..i])
      invariant h.keymap.Keys == keys + First(ks, i)
      invariant h.hashEntryCount == count + i
    {
      NextAtHome(t, es, i);
      NextKey(ks, i);
      FitAt(t, count, keys, ks, offset, i);
      var err := PutOne(h, ks[i], slotId);
      ok := ok && err == Ok;
    }
    assert es[..|ks|] == es;
  }

  // ---------- The run ----------

  /** Keys 31 to 36 and 47, */
  function Early(): (ks: seq<Word>)
    ensures |ks| == 7
  {
    seq(6, i requires 0 <= i < 6 => 31 + i) + [47]
  }

  /** and 5 to 14. */
  function Late(): (ks: seq<Word>)
    ensures |ks| == 10
  {
    seq(10, i requires 0 <= i < 10 => 5 + i)
  }

  ghost function Blank(n: nat): (t: seq<Entry>)
    ensures |t| == n && AllEmpty(t)
  {
    seq(n, _ => EMPTY)
  }

  lemma Homes64(key: Word)
    ensures Home(64, key) == key % 64
  {
    HomeIs(6, key);
  }

  lemma SmallHomes(ks: seq<Word>, o: Word)
    requires o != 0 && (forall i: nat :: i < |ks| ==> ks[i] < 64)
    requires forall i: nat, j: nat :: i < j < |ks| ==> ks[i] < ks[j]
    ensures var es := Entries(ks, o);
      && Ascending(64, es) && forall i: nat :: i < |es| ==> Home(64, es[i].key) == es[i].key
  {
    var es := Entries(ks, o);
    forall i: nat | i < |es| ensures Home(64, es[i].key) == es[i].key && !Empty(es[i]) {
      SmallHome(es[i].key);
    }
    AscendingHomes(es);
  }

  lemma SmallHome(key: Word)
    requires key < 64
    ensures Home(64, key) == key
  {
    Homes64(key);
  }

  lemma AscendingHomes(es: seq<Entry>)
    requires forall i: nat :: i < |es| ==> Home(64, es[i].key) == es[i].key && !Empty(es[i])
    requires forall i: nat, j: nat :: i < j < |es| ==> es[i].key < es[j].key
    ensures Ascending(64, es)
  {
  }

  lemma EarlyHomes(o: Word)
    requires o != 0
    ensures var es := Entries(Early() + [48], o);
      && Ascending(64, es) && forall i: nat :: i < |es| ==> Home(64, es[i].key) == es[i].key
  {
    SmallHomes(Early() + [48], o);
  }

  lemma EarlyFit(o: Word)
    requires o != 0
    ensures Fit(Blank(64), 0, {}, Early() + [48], o)
  {
    EarlyHomes(o);
  }

  /** The table of 64 buckets with the early keys, each at home. */
  ghost function Spread(o: Word): (t: seq<Entry>)
    ensures |t| == 64
  {
    AtHome(Blank(64), Entries(Early(), o))
  }

  lemma EarlyRemoved(o: Word)
    requires o != 0
    ensures Removed(Counted(AtHome(Blank(64), Entries(Early() + [48], o)), 8), 48) == Counted(Spread(o), 7)
  {
    var ks, t := Early() + [48], Spread(o);
    var es := Entries(ks, o);
    EarlyHomes(o);
    assert es[..7] == Entries(Early(), o) && es[7] == Entry(48, o);
    AtHomeBeyond(Blank(64), es[..7], 48);
    var t8 := AtHome(Blank(64), es);
    assert t8 == t[48 := Entry(48, o)];
    RemoveAtHome(t8, 48);
    assert t8[48 := EMPTY] == t;
  }

  /** What is left in 16 buckets: 47 has taken the place of 32. */
  ghost function Squeezed(o: Word): (t: seq<Entry>)
    ensures |t| == 16
  {
    AtHome(Blank(16), Entries(Early()[..6], o))[0 := Entry(47, o)]
  }

  lemma KeysApart(ks: seq<Word>, o: Word)
    requires forall i: nat, j: nat :: i < j < |ks| ==> ks[i] % 16 != ks[j] % 16
    ensures var es := Entries(ks, o);
      Apart(16, es) && forall i: nat :: i < |es| ==> Home(16, es[i].key) == ks[i] % 16
  {
    var es := Entries(ks, o);
    forall i: nat | i < |es| ensures Home(16, es[i].key) == ks[i] % 16 {
      Homes16(es[i].key);
    }
  }

  lemma SqueezedHomes(o: Word)
    requires o != 0
    ensures var es := Entries(Early()[..6], o);
      && Apart(16, es) && (forall i: nat :: i < 6 ==> !Empty(es[i]))
      && Home(16, es[0].key) == 15 && forall i: nat :: 1 <= i < 6 ==> Home(16, es[i].key) == i - 1
    ensures Home(16, 47) == 15 && Home(16, 16) == 0
  {
    var ks := Early()[..6];
    assert ks[0] % 16 == 15 && forall i: nat :: 1 <= i < 6 ==> ks[i] % 16 == i - 1;
    KeysApart(ks, o);
    Homes16(47);
    Homes16(16);
  }

  /** The bucket contents, one by one. */
  lemma SqueezedAt(o: Word, b: nat)
    requires o != 0 && b < 16
    ensures var t, es := Squeezed(o), Entries(Early()[..6], o);
      t[b] == if b == 0 then Entry(47, o) else if b < 5 then es[b + 1] else if b == 15 then es[0] else EMPTY
  {
    var es := Entries(Early()[..6], o);
    SqueezedHomes(o);
    if 1 <= b < 5 {
      AtHomeHas(Blank(16), es, b + 1);
    } else if b == 15 {
      AtHomeHas(Blank(16), es, 0);
    } else if b != 0 {
      AtHomeElsewhere(Blank(16), es, b);
    }
  }

  lemma EarlyReinserted(o: Word)
    requires o != 0
    ensures Reinsert(Blank(16), Entries(Early(), o)) == Rebuilt(false, Squeezed(o))
  {
    var es := Entries(Early(), o);
    var u, w := es[..6], AtHome(Blank(16), es[..6]);
    assert u == Entries(Early()[..6], o) && es[6] == Entry(47, o) && es[..|es| - 1] == u;
    SqueezedHomes(o);
    ApartAtHome(Blank(16), u);
    AtHomeHas(Blank(16), u, 0);
    AtHomeHas(Blank(16), u, 1);
    PutDisplaces(w, 47, o);
  }

  lemma EarlyCollected(o: Word)
    requires o != 0
    ensures Compact(Spread(o)) == Entries(Early(), o) && Occupied(Spread(o)[..16]) == 0 && Occupied(Spread(o)) == 7
  {
    var es := Entries(Early(), o);
    EarlyHomes(o);
    assert Entries(Early() + [48], o)[..7] == es;
    assert Ascending(64, es);
    CompactAtHome(Blank(64), es);
    CompactCount(Spread(o));
    forall b: nat | b < 16 ensures Spread(o)[..16][b] == EMPTY {
      AtHomeElsewhere(Blank(64), es, b);
    }
    AllEmptyCount(Spread(o)[..16]);
  }

  /** The shrink that follows gets stuck at the last key, with six entries in the table and a counter of zero. */
  lemma EarlyShrunk(o: Word, o': Word)
    requires o != 0 && o' != 0 && o' == Fixup(o, SlotsBase(64), SlotsBase(16))
    ensures Shrunk(Counted(Spread(o), 7)) == Counted(Squeezed(o'), 0)
  {
    LeastForFew(7);
    TargetIs(7, 64, 16);
    EarlyCollected(o);
    EarlyReinserted(o');
    assert FixedEntries(Entries(Early(), o), SlotsBase(64), SlotsBase(16)) == Entries(Early(), o');
  }

  lemma LateHomes(o': Word)
    requires o' != 0
    ensures var es := Entries(Late(), o');
      Apart(16, es) && forall i: nat :: i < 10 ==> Home(16, es[i].key) == 5 + i && es[i] == Entry(5 + i, o')
  {
    var ks := Late();
    forall i: nat, j: nat | i < j < 10 ensures ks[i] % 16 != ks[j] % 16 {
      assert ks[i] == 5 + i && ks[j] == 5 + j;
    }
    KeysApart(ks, o');
    forall i: nat | i < 10 ensures ks[i] % 16 == 5 + i {
    }
  }

  lemma LateIsNew(o: Word, keys: set<Word>, key: Word)
    requires o != 0 && keys <= First(Early(), 7) && 5 <= key < 15
    ensures Empty(Squeezed(o)[Home(16, key)]) && key !in keys
  {
    Homes16(key);
    SqueezedAt(o, key);
  }

  lemma LateFit(o: Word, o': Word, keys: set<Word>)
    requires o != 0 && o' != 0 && keys <= First(Early(), 7)
    ensures Fit(Squeezed(o), 0, keys, Late(), o')
  {
    LateHomes(o');
    forall i: nat | i < 10 ensures Empty(Squeezed(o)[Home(16, Late()[i])]) && Late()[i] !in keys {
      LateIsNew(o, keys, 5 + i);
    }
  }

  /** Sixteen entries in 16 buckets. */
  ghost function Stuffed(o: Word, o': Word): (t: seq<Entry>)
    ensures |t| == 16
  {
    AtHome(Squeezed(o), Entries(Late(), o'))
  }

  lemma StuffedLate(o: Word, o': Word, b: nat)
    requires o' != 0 && 5 <= b < 15
    ensures var e := Stuffed(o, o')[b]; !Empty(e) && Home(16, e.key) == b
  {
    LateHomes(o');
    AtHomeHas(Squeezed(o), Entries(Late(), o'), b - 5);
  }

  lemma StuffedEarly(o: Word, o': Word, b: nat)
    requires o != 0 && o' != 0 && (b < 5 || b == 15)
    ensures var e := Stuffed(o, o')[b]; !Empty(e) && Home(16, e.key) == if b == 0 then 15 else b
  {
    LateHomes(o');
    AtHomeElsewhere(Squeezed(o), Entries(Late(), o'), b);
    SqueezedAt(o, b);
    SqueezedHomes(o);
  }

  lemma StuffedWraps(o: Word, o': Word)
    requires o != 0 && o' != 0 && Unique(Stuffed(o, o'))
    ensures OneWrapped(Stuffed(o, o'))
  {
    var t := Stuffed(o, o');
    forall b: nat | b < 16 ensures !Empty(t[b]) && Home(16, t[b].key) == if b == 0 then 15 else b {
      if 5 <= b < 15 {
        StuffedLate(o, o', b);
      } else {
        StuffedEarly(o, o', b);
      }
    }
  }

  /** What a slot's offset becomes when the slots move down. */
  lemma MovedOffset(maxSlots: nat, id: nat)
    requires id < maxSlots && SlotsBase(64) + maxSlots * SLOT_SIZE <= WORD
    ensures var o := SlotToOffset(SlotsBase(64), maxSlots, id);
      0 < o < WORD && Fixup(o, SlotsBase(64), SlotsBase(16)) != 0
    ensures 0 < SlotToOffset(SlotsBase(16), maxSlots, id) < WORD
  {
    var o := SlotToOffset(SlotsBase(64), maxSlots, id);
    OffsetRoundTrip(SlotsBase(64), maxSlots, id, o);
    OffsetRoundTrip(SlotsBase(16), maxSlots, id, o);
    FixedNames(o, SlotsBase(64), SlotsBase(16), maxSlots);
  }

  lemma BlankIs(t: seq<Entry>)
    requires AllEmpty(t)
    ensures t == Blank(|t|)
  {
  }

  /** Keys that fit, put into an empty index. */
  method PutFirst(h: Handle, ks: seq<Word>, id: nat, ghost o: Word) returns (ok: bool)
    requires h.Valid() && h.hashCapacity > 0 && AllEmpty(h.T()) && h.keymap == map[] && id < h.maxSlots
    requires o == SlotToOffset(h.slotsBase, h.maxSlots, id) && Fit(Blank(h.hashCapacity), 0, {}, ks, o)
    modifies h, h.mem
    ensures h.Sound() && ok && h.hashCapacity == old(h.hashCapacity) && h.keymap.Keys == First(ks, |ks|)
    ensures h.State() == Counted(AtHome(Blank(h.hashCapacity), Entries(ks, o)), |ks|)
  {
    BlankIs(h.T());
    ok := PutAll(h, ks, id);
  }

  /** Eight keys are put into a new index of 64 buckets, */
  method PutEarly(h: Handle, id: nat, ghost o: Word) returns (ok: bool)
    requires h.Valid() && h.hashCapacity == 64 && AllEmpty(h.T()) && h.keymap == map[] && id < h.maxSlots
    requires o == SlotToOffset(h.slotsBase, h.maxSlots, id) != 0
    modifies h, h.mem
    ensures h.Sound() && ok && h.hashCapacity == 64 && h.keymap.Keys == First(Early() + [48], 8)
    ensures h.State() == Counted(AtHome(Blank(64), Entries(Early() + [48], o)), 8)
  {
    EarlyFit(o);
    ok := PutFirst(h, Early() + [48], id, o);
  }

  /** and the last of them is removed. */
  method RemoveLast(h: Handle, ghost o: Word, ghost o': Word) returns (ok: bool)
    requires h.Sound() && h.hashCapacity == 64 && h.keymap.Keys == First(Early() + [48], 8)
    requires h.State() == Counted(AtHome(Blank(64), Entries(Early() + [48], o)), 8)
    requires o != 0 && o' != 0 && o' == Fixup(o, SlotsBase(64), SlotsBase(16))
    modifies h, h.mem
    ensures ok && Halfway(h, o')
  {
    EarlyRemoved(o);
    EarlyShrunk(o, o');
    EarlyKeys(h.keymap.Keys);
    ghost var m := h.keymap - {48};
    var err;
    ghost var intact;
    err, intact := h.Remove(48);
    ok := err == Ok;
    assert forall k: Word :: k in h.keymap ==> k in m;
  }

  /** The removal has lost key 32, and the counter is zero. */
  ghost predicate Halfway(h: Handle, o: Word)
    reads h, h.mem
  {
    && h.Sound() && h.hashCapacity == 16 && h.slotsBase == SlotsBase(16) && h.State() == Counted(Squeezed(o), 0)
    && h.keymap.Keys <= First(Early(), 7) && o != 0
  }

  method NineCalls(h: Handle, id: nat) returns (ok: bool, ghost o: Word)
    requires h.Valid() && h.hashCapacity == 64 && AllEmpty(h.T()) && h.keymap == map[] && id < h.maxSlots
    modifies h, h.mem
    ensures ok && Halfway(h, o)
  {
    MovedOffset(h.maxSlots, id);
    ghost var first := SlotToOffset(SlotsBase(64), h.maxSlots, id);
    o := Fixup(first, SlotsBase(64), SlotsBase(16));
    var put := PutEarly(h, id, first);
    var removed := RemoveLast(h, first, o);
    ok := put && removed;
  }

  /** Ten more keys fill the table. */
  method PutLate(h: Handle, id: nat, ghost o: Word, ghost o': Word) returns (ok: bool)
    requires Halfway(h, o) && id < h.maxSlots && o' == SlotToOffset(SlotsBase(16), h.maxSlots, id) != 0
    modifies h, h.mem
    ensures ok && Filled(h, o, o')
  {
    LateFit(o, o', h.keymap.Keys);
    ok := PutAll(h, Late(), id);
    NotYet(h.keymap.Keys);
  }

  /** There is no room left, and the counter is ten. */
  ghost predicate Filled(h: Handle, o: Word, o': Word)
    reads h, h.mem
  {
    && h.Sound() && h.hashCapacity == 16 && h.slotsBase == SlotsBase(16) && h.State() == Counted(Stuffed(o, o'), 10)
    && h.keymap.Keys <= First(Early(), 7) + First(Late(), 10) && 16 !in h.keymap && o != 0
  }

  lemma FilledFacts(h: Handle, o: Word, o': Word)
    requires Filled(h, o, o') && o' != 0
    ensures |h.keymap| == 16 && Put(h.T(), 16, o').Stored?
  {
    h.KeysAreBuckets();
    StuffedWraps(o, o');
    PushesOut(h.T(), 16, o');
  }

  /** A success without room: an older key is gone. */
  lemma FullSuccess(m: map<Word, Option<nat>>, n: nat, key: Word, id: nat, m': map<Word, Option<nat>>,
                    lost: Option<Word>)
    requires n > 0 && |m| == n && key !in m && InsertMeans(m, n, key, id, m', Ok, lost)
    ensures lost.Some? && lost.value in m && lost.value != key && key in m' && |m'| == n
    ensures m'.Keys == m.Keys + {key} - {lost.value}
  {
    MinusCount(m, key, Some(id), lost);
  }

  /** Key 16 pushes one of them out. */
  method PutLast(h: Handle, id: nat, ghost o: Word, ghost o': Word) returns (ok: bool, ghost lost: Word)
    requires Filled(h, o, o') && id < h.maxSlots && o' == SlotToOffset(SlotsBase(16), h.maxSlots, id) != 0
    modifies h, h.mem
    ensures h.Sound() && ok && h.hashCapacity == 16 && h.hashEntryCount == 10
    ensures |h.keymap| == 16 && 16 in h.keymap && lost in old(h.keymap) && lost != 16
    ensures h.keymap.Keys == old(h.keymap.Keys) + {16} - {lost}
  {
    FilledFacts(h, o, o');
    ghost var m := h.keymap;
    var err;
    ghost var intact, gone;
    err, intact, gone := h.Put(16, id);
    FullSuccess(m, 16, 16, id, h.keymap, gone);
    ok := err == Ok;
    lost := gone.value;
  }

  lemma EarlyKeys(keys: set<Word>)
    requires keys == {} + First(Early() + [48], 8)
    ensures 48 in keys && keys - {48} == First(Early(), 7)
  {
    var ks := Early() + [48];
    assert ks[7] == 48 && forall i: nat :: i < 7 ==> ks[i] == Early()[i];
  }

  /**
   Twenty calls on an index with nothing in it, and each of them reports success. After the last one there are sixteen
   keys in sixteen buckets, with a counter of ten. The key that it put is there, and one that was there before it, and
   has never been removed, is gone.
   */
  method TwentyCalls(h: Handle, id: nat) returns (ok: bool, ghost before: set<Word>, ghost lost: Word)
    requires h.Valid() && h.hashCapacity == 64 && AllEmpty(h.T()) && h.keymap == map[] && id < h.maxSlots
    modifies h, h.mem
    ensures h.Sound() && ok && h.hashCapacity == 16 && h.hashEntryCount == 10
    ensures |h.keymap| == 16 && 16 in h.keymap
    ensures lost in before && lost != 16 && h.keymap.Keys == before + {16} - {lost}
    ensures before <= First(Early(), 7) + First(Late(), 10)
  {
    MovedOffset(h.maxSlots, id);
    ghost var o, o' := 1, SlotToOffset(SlotsBase(16), h.maxSlots, id);
    var nine, ten, last;
    nine, o := NineCalls(h, id);
    ten := PutLate(h, id, o, o');
    before := h.keymap.Keys;
    last, lost := PutLast(h, id, o, o');
    ok := nine && ten && last;
  }

  lemma NotYet(keys: set<Word>)
    requires keys <= First(Early(), 7) + First(Late(), 10)
    ensures 16 !in keys
  {
  }

  /** The same on a new index. */
  method SilentLoss(words: nat, slots: nat, withCrc: bool, checksum: Slots.Checksum, id: nat)
    returns (h: Handle, ok: bool, ghost before: set<Word>, ghost lost: Word)
    requires Layout(words, 64, slots) && id < slots
    ensures fresh(h) && h.Sound() && ok && h.hashCapacity == 16 && h.hashEntryCount == 10
    ensures |h.keymap| == 16 && 16 in h.keymap
    ensures lost in before && lost != 16 && h.keymap.Keys == before + {16} - {lost}
    ensures before <= First(Early(), 7) + First(Late(), 10)
  {
    h := new Handle(words, 64, slots, withCrc, checksum);
    ok, before, lost := TwentyCalls(h, id);
  }

  lemma PushesOut(t: seq<Entry>, key: Word, slot: Word)
    requires OneWrapped(t) && |t| == 16 && key == 16 && slot != 0 && key !in Contents(t)
    ensures !HasEmpty(t) && Put(t, key, slot).Stored?
  {
    Homes16(16);
    LacksAbsent(t, key);
    FullTableWitness(t, key, slot);
  }
}
