/**
 What replay restores when a transaction makes more records than the log has room for (`src/ef_undo.c:109-112`): the
 appending fails, and the callers go on.
 */
module FullLog {
  import opened Base
  import opened Rebuild
  import opened Slots
  import opened Heaps
  import opened Undo

  // ---------- A log that is full ----------

  /** The first `cap` records. */
  function Fitting(log: seq<Record>, cap: nat): seq<Record> {
    if |log| <= cap then log else log[..cap]
  }

  /** The records of all the operations, whether the log has room for them or not. */
  function AllRecords(c: Checksum, h: Heap, ops: seq<Op>): seq<Record>
    requires Proper(c) && WellSized(h) && RunsCovered(c, h, ops)
    decreases |ops|
  {
    if ops == [] then []
    else
      UndoExact(c, h, ops[0]);
      Apply(c, h, ops[0]).records + AllRecords(c, Apply(c, h, ops[0]).heap, ops[1..])
  }

  lemma {:induction false} AppendKeepsFitting(log: seq<Record>, cap: nat, recs: seq<Record>)
    requires |log| <= cap
    ensures Append(log, cap, recs) == Fitting(log + recs, cap)
    decreases |recs|
  {
    if recs == [] {
      assert log + recs == log;
    } else {
      AppendKeepsFitting(AppendOne(log, cap, recs[0]), cap, recs[1..]);
      if |log| < cap {
        assert log + [recs[0]] + recs[1..] == log + recs;
      } else {
        assert Fitting(log + recs, cap) == log && Fitting(log + recs[1..], cap) == log;
      }
    }
  }

  lemma FittingMore(all: seq<Record>, more: seq<Record>, cap: nat)
    ensures Fitting(Fitting(all, cap) + more, cap) == Fitting(all + more, cap)
  {
    if |all| > cap {
      assert (all[..cap] + more)[..cap] == all[..cap] == (all + more)[..cap];
    }
  }

  /** The log ends up with exactly the first records of the transaction, as many as it has room for. */
  lemma {:induction false} LogIsPrefix(c: Checksum, h: Heap, log: seq<Record>, cap: nat, ops: seq<Op>)
    requires Proper(c) && WellSized(h) && RunsCovered(c, h, ops) && |log| <= cap
    ensures Run(c, h, log, cap, ops).1 == Fitting(log + AllRecords(c, h, ops), cap)
    decreases |ops|
  {
    if ops == [] {
      assert log + [] == log;
    } else {
      var e := Apply(c, h, ops[0]);
      UndoExact(c, h, ops[0]);
      var log' := Append(log, cap, e.records);
      var rest := AllRecords(c, e.heap, ops[1..]);
      AppendKeepsFitting(log, cap, e.records);
      LogIsPrefix(c, e.heap, log', cap, ops[1..]);
      FittingTwice(log, e.records, rest, cap);
    }
  }

  lemma FittingTwice(log: seq<Record>, recs: seq<Record>, rest: seq<Record>, cap: nat)
    ensures Fitting(Fitting(log + recs, cap) + rest, cap) == Fitting(log + (recs + rest), cap)
  {
    FittingMore(log + recs, rest, cap);
    assert log + recs + rest == log + (recs + rest);
  }

  /** The log has a record about this slot. */
  ghost predicate Named(log: seq<Record>, n: nat, x: nat) {
    exists i: nat :: i < |log| && log[i].kind != FREE_COUNT && TargetOf(n, log[i]) == x
  }

  lemma NamedPrefix(log: seq<Record>, n: nat, x: nat)
    requires log != []
    ensures var rec := log[|log| - 1];
      Named(log, n, x) <==> Named(log[..|log| - 1], n, x) || (rec.kind != FREE_COUNT && TargetOf(n, rec) == x)
  {
    var u := log[..|log| - 1];
    if Named(u, n, x) {
      var i: nat :| i < |u| && u[i].kind != FREE_COUNT && TargetOf(n, u[i]) == x;
      assert log[i] == u[i];
    }
    if Named(log, n, x) {
      var i: nat :| i < |log| && log[i].kind != FREE_COUNT && TargetOf(n, log[i]) == x;
      assert i < |u| ==> u[i] == log[i];
    }
  }

  /** Two heaps that agree on the free list and on the slots that the log names. */
  ghost predicate Agree(g: Heap, h: Heap, log: seq<Record>) {
    && |g.slots| == |h.slots| && g.(slots := []) == h.(slots := [])
    && forall x: nat :: x < |g.slots| && Named(log, |g.slots|, x) ==> g.slots[x] == h.slots[x]
  }

  /** Replay works on the slots that the log names, looks at no others, and leaves those as they are. */
  lemma {:induction false} ReplayNamed(c: Checksum, g: Heap, h: Heap, log: seq<Record>)
    requires |g.slots| <= MOST_SLOTS && Records(log) && Agree(g, h, log)
    ensures var (g', e) := Replay(c, g, log); var (h', f) := Replay(c, h, log);
      && e == f && |g'.slots| == |h'.slots| == |g.slots| && g'.(slots := []) == h'.(slots := [])
      && (forall x: nat :: x < |g.slots| && Named(log, |g.slots|, x) ==> g'.slots[x] == h'.slots[x])
      && (forall x: nat :: x < |g.slots| && !Named(log, |g.slots|, x) ==>
            g'.slots[x] == g.slots[x] && h'.slots[x] == h.slots[x])
    decreases |log|
  {
    if log != [] {
      var n, u, rec := |g.slots|, log[..|log| - 1], log[|log| - 1];
      forall x: nat ensures Named(log, n, x) <==> Named(u, n, x) || (rec.kind != FREE_COUNT && TargetOf(n, rec) == x) {
        NamedPrefix(log, n, x);
      }
      var g1, h1 := Invert(c, g, rec).0, Invert(c, h, rec).0;
      InvertKeepsSize(c, g, rec);
      InvertKeepsSize(c, h, rec);
      InvertNamed(c, g, h, rec);
      if Invert(c, g, rec).1 == Ok {
        ReplayNamed(c, g1, h1, u);
      }
    }
  }

  lemma InvertNamed(c: Checksum, g: Heap, h: Heap, rec: Record)
    requires |g.slots| <= MOST_SLOTS && |rec.before| == 12
    requires |g.slots| == |h.slots| && g.(slots := []) == h.(slots := [])
    requires var id := TargetOf(|g.slots|, rec); rec.kind != FREE_COUNT && id < |g.slots| ==> g.slots[id] == h.slots[id]
    ensures var (g', e) := Invert(c, g, rec); var (h', f) := Invert(c, h, rec); var id := TargetOf(|g.slots|, rec);
      && e == f && |g'.slots| == |h'.slots| == |g.slots| && g'.(slots := []) == h'.(slots := [])
      && (forall x: nat :: x < |g.slots| && (rec.kind == FREE_COUNT || x != id) ==>
            g'.slots[x] == g.slots[x] && h'.slots[x] == h.slots[x])
      && (rec.kind != FREE_COUNT && id < |g.slots| ==> g'.slots[id] == h'.slots[id])
  {
  }

  /**
   What replay restores when the log filled up part-way. The operations `a` have filled it, and `b` followed, none of
   whose records it took. If `b` has kept to other slots, replay undoes exactly `a` and keeps exactly what `b` did.
   */
  lemma FullLogUndoesPrefix(c: Checksum, h: Heap, cap: nat, a: seq<Op>, g: Heap)
    requires Proper(c) && WellSized(h) && RunsCovered(c, h, a) && AllInvertible(c, h, a) && RecordsOf(c, h, a) == cap
    requires var (h1, log) := Run(c, h, [], cap, a); Agree(g, h1, log)
    ensures var (h1, log) := Run(c, h, [], cap, a);
      && Records(log) && |g.slots| == |h.slots|
      && var (r, err) := Replay(c, g, log);
         && err == Ok && |r.slots| == |h.slots| && r.(slots := []) == h.(slots := [])
         && forall x: nat :: x < |h.slots| ==> r.slots[x] == if Named(log, |h.slots|, x) then h.slots[x] else g.slots[x]
  {
    var (h1, log) := Run(c, h, [], cap, a);
    ReplayIsInverse(c, h, cap, a);
    RunKeepsSize(c, h, [], cap, a);
    ReplayNamed(c, g, h1, log);
  }

  lemma ApplyKeepsSize(c: Checksum, h: Heap, op: Op)
    requires Proper(c) && WellSized(h) && Covered(h, op)
    ensures |Apply(c, h, op).heap.slots| == |h.slots| && WellSized(Apply(c, h, op).heap)
  {
    UndoExact(c, h, op);
  }

  lemma {:induction false} RunKeepsSize(c: Checksum, h: Heap, log: seq<Record>, cap: nat, ops: seq<Op>)
    requires Proper(c) && WellSized(h) && RunsCovered(c, h, ops)
    ensures |Run(c, h, log, cap, ops).0.slots| == |h.slots|
    decreases |ops|
  {
    if ops != [] {
      ApplyKeepsSize(c, h, ops[0]);
      var g, records := Apply(c, h, ops[0]).heap, Apply(c, h, ops[0]).records;
      RunKeepsSize(c, g, Append(log, cap, records), cap, ops[1..]);
    }
  }

  // ---------- One record too many ----------

  /** Records whose undoing sets the link of their slot, its status, and the first bytes of its payload. */
  const LINK_KINDS: set<nat> := {SLOT_NEXT, SLOT_ALLOC, SLOT_FREE}
  const STATUS_KINDS: set<nat> := {SLOT_STATUS, SLOT_ALLOC, SLOT_FREE}
  const HEAD_KINDS: set<nat> := {SLOT_PAYLOAD}
  const SLOT_KINDS: set<nat> := {SLOT_ALLOC, SLOT_FREE, SLOT_STATUS, SLOT_NEXT, SLOT_PAYLOAD}

  /** The log holds a record of one of these kinds about the slot. */
  ghost predicate Restores(log: seq<Record>, n: nat, id: nat, kinds: set<nat>) {
    exists i: nat :: i < |log| && log[i].kind in kinds && TargetOf(n, log[i]) == id
  }

  lemma RestoresPrefix(log: seq<Record>, n: nat, id: nat, kinds: set<nat>)
    requires log != []
    ensures var rec := log[|log| - 1];
      Restores(log, n, id, kinds)
      <==> Restores(log[..|log| - 1], n, id, kinds) || (rec.kind in kinds && TargetOf(n, rec) == id)
  {
    var u := log[..|log| - 1];
    if Restores(u, n, id, kinds) {
      var i: nat :| i < |u| && u[i].kind in kinds && TargetOf(n, u[i]) == id;
      assert log[i] == u[i];
    }
    if Restores(log, n, id, kinds) {
      var i: nat :| i < |log| && log[i].kind in kinds && TargetOf(n, log[i]) == id;
      assert i < |u| ==> u[i] == log[i];
    }
  }

  lemma RestoresMore(log: seq<Record>, n: nat, id: nat, a: set<nat>, b: set<nat>)
    requires a <= b && Restores(log, n, id, a)
    ensures Restores(log, n, id, b)
  {
  }

  /** Two heaps that agree but for slot `id`. */
  ghost predicate OneDiffers(g: Heap, h: Heap, id: nat) {
    && id < |g.slots| == |h.slots| <= MOST_SLOTS && g.(slots := []) == h.(slots := [])
    && Sized(g.slots[id]) && Sized(h.slots[id])
    && forall x: nat :: x < |g.slots| && x != id ==> g.slots[x] == h.slots[x]
  }

  function HeadOf(s: Slot): seq<Byte>
    requires Sized(s)
  {
    s.payload[..8]
  }

  /** The log puts the two slots into the same state: some record restores each field that differs. */
  ghost predicate Mended(log: seq<Record>, n: nat, id: nat, a: Slot, b: Slot)
    requires Sized(a) && Sized(b)
  {
    && (a.next == b.next || Restores(log, n, id, LINK_KINDS))
    && (a.status == b.status || Restores(log, n, id, STATUS_KINDS))
    && (HeadOf(a) == HeadOf(b) || Restores(log, n, id, HEAD_KINDS))
    && Tail(a.payload) == Tail(b.payload)
    && (a == b || Restores(log, n, id, SLOT_KINDS))
  }

  lemma TargetInRange(n: nat, rec: Record)
    requires n > 0
    ensures TargetOf(n, rec) < n
  {
    if At(n, rec.target).Slot? {
      NamesOff(n, rec.target);
    }
  }

  /** What undoing one record does to its slot. */
  function Undone(c: Checksum, id: nat, s: Slot, freeHead: Word, rec: Record): Slot
    requires |rec.before| == 12
  {
    if rec.kind == SLOT_STATUS then RestoredStatus(s, rec.before)
    else if rec.kind == SLOT_NEXT then Seal(c, id, s.(next := NextIn(rec.before)))
    else if rec.kind == SLOT_PAYLOAD then Seal(c, id, s.(payload := rec.before[..8] + Tail(s.payload)))
    else if rec.kind == SLOT_ALLOC then s.(next := freeHead, status := FREE, crc := 0)
    else RestoredFree(c, id, s, rec.before, rec.aux)
  }

  lemma InvertOne(c: Checksum, g: Heap, h: Heap, rec: Record, id: nat)
    requires Proper(c) && OneDiffers(g, h, id) && |rec.before| == 12
    ensures Invert(c, g, rec).1 == Invert(c, h, rec).1 == Ok
    ensures var g', h' := Invert(c, g, rec).0, Invert(c, h, rec).0;
      && OneDiffers(g', h', id)
      && if rec.kind in SLOT_KINDS && TargetOf(|g.slots|, rec) == id then
           && g'.slots[id] == Undone(c, id, g.slots[id], g.freeHead, rec)
           && h'.slots[id] == Undone(c, id, h.slots[id], g.freeHead, rec)
         else g'.slots[id] == g.slots[id] && h'.slots[id] == h.slots[id]
  {
    TargetInRange(|g.slots|, rec);
    UndoneSized(c, id, g.slots[id], g.freeHead, rec);
    UndoneSized(c, id, h.slots[id], g.freeHead, rec);
  }

  lemma UndoneSized(c: Checksum, id: nat, s: Slot, freeHead: Word, rec: Record)
    requires Proper(c) && Sized(s) && |rec.before| == 12
    ensures Sized(Undone(c, id, s, freeHead, rec))
  {
    NumberFits(rec.before[..4]);
    NumberFits(rec.before[4..8]);
    Spans();
  }

  /** Each record restores the fields that its kind says, and lets the others stand; the checksum follows. */
  lemma UndoneFields(c: Checksum, id: nat, a: Slot, b: Slot, freeHead: Word, rec: Record)
    requires Proper(c) && Sized(a) && Sized(b) && |rec.before| == 12 && rec.kind in SLOT_KINDS
    ensures var a', b' := Undone(c, id, a, freeHead, rec), Undone(c, id, b, freeHead, rec);
      && Sized(a') && Sized(b') && Tail(a'.payload) == Tail(a.payload) && Tail(b'.payload) == Tail(b.payload)
      && (a'.next == b'.next <==> a.next == b.next || rec.kind in LINK_KINDS)
      && (a'.status == b'.status <==> a.status == b.status || rec.kind in STATUS_KINDS)
      && (HeadOf(a') == HeadOf(b') <==> HeadOf(a) == HeadOf(b) || rec.kind in HEAD_KINDS)
      && ((a'.next == b'.next && a'.status == b'.status && HeadOf(a') == HeadOf(b')
           && Tail(a.payload) == Tail(b.payload)) ==> a' == b')
  {
    UndoneSized(c, id, a, freeHead, rec);
    UndoneSized(c, id, b, freeHead, rec);
    var a', b' := Undone(c, id, a, freeHead, rec), Undone(c, id, b, freeHead, rec);
    if rec.kind == SLOT_PAYLOAD {
      assert HeadOf(a') == rec.before[..8] == HeadOf(b');
      assert Tail(a'.payload) == Tail(a.payload) && Tail(b'.payload) == Tail(b.payload);
    }
    if HeadOf(a') == HeadOf(b') && Tail(a.payload) == Tail(b.payload) {
      HeadAndTail(a'.payload, b'.payload);
    }
  }

  lemma HeadAndTail(p: seq<Byte>, q: seq<Byte>)
    requires |p| == |q| == PAYLOAD_SIZE && p[..8] == q[..8] && Tail(p) == Tail(q)
    ensures p == q
  {
    assert p == p[..8] + p[8..] && q == q[..8] + q[8..];
  }
  /** One record less to go, about another slot or none, */
  lemma MendedElsewhere(log: seq<Record>, n: nat, id: nat, a: Slot, b: Slot)
    requires log != [] && Sized(a) && Sized(b)
    requires var rec := log[|log| - 1]; !(rec.kind in SLOT_KINDS && TargetOf(n, rec) == id)
    ensures Mended(log, n, id, a, b) <==> Mended(log[..|log| - 1], n, id, a, b)
  {
    RestoresPrefix(log, n, id, LINK_KINDS);
    RestoresPrefix(log, n, id, STATUS_KINDS);
    RestoresPrefix(log, n, id, HEAD_KINDS);
    RestoresPrefix(log, n, id, SLOT_KINDS);
  }

  /** or about this one. */
  lemma MendedHere(c: Checksum, log: seq<Record>, n: nat, id: nat, a: Slot, b: Slot, freeHead: Word)
    requires Proper(c) && Records(log) && log != [] && Sized(a) && Sized(b)
    requires var rec := log[|log| - 1]; rec.kind in SLOT_KINDS && TargetOf(n, rec) == id
    ensures var rec := log[|log| - 1]; var a', b' := Undone(c, id, a, freeHead, rec), Undone(c, id, b, freeHead, rec);
      Sized(a') && Sized(b') && (Mended(log, n, id, a, b) <==> Mended(log[..|log| - 1], n, id, a', b'))
  {
    var u, rec := log[..|log| - 1], log[|log| - 1];
    UndoneFields(c, id, a, b, freeHead, rec);
    RestoresPrefix(log, n, id, LINK_KINDS);
    RestoresPrefix(log, n, id, STATUS_KINDS);
    RestoresPrefix(log, n, id, HEAD_KINDS);
    RestoresPrefix(log, n, id, SLOT_KINDS);
    if Restores(u, n, id, LINK_KINDS) {
      RestoresMore(u, n, id, LINK_KINDS, SLOT_KINDS);
    }
    if Restores(u, n, id, STATUS_KINDS) {
      RestoresMore(u, n, id, STATUS_KINDS, SLOT_KINDS);
    }
    if Restores(u, n, id, HEAD_KINDS) {
      RestoresMore(u, n, id, HEAD_KINDS, SLOT_KINDS);
    }
  }

  lemma SameSlot(g: Heap, h: Heap, id: nat)
    requires OneDiffers(g, h, id)
    ensures g == h <==> g.slots[id] == h.slots[id]
  {
    if g.slots[id] == h.slots[id] {
      assert g.slots == h.slots;
    }
  }

  lemma NothingToMend(n: nat, id: nat, a: Slot, b: Slot)
    requires Sized(a) && Sized(b)
    ensures Mended([], n, id, a, b) <==> a == b
  {
    HeadAndTail(if Mended([], n, id, a, b) then a.payload else b.payload, b.payload);
  }

  /**
   Replay makes a difference in one slot go away if and only if every field that differs is restored by a record of the
   log. The payload past its eighth byte never is.
   */
  lemma {:induction false} ReplayMends(c: Checksum, g: Heap, h: Heap, log: seq<Record>, id: nat)
    requires Proper(c) && OneDiffers(g, h, id) && Records(log)
    ensures Replay(c, g, log) == Replay(c, h, log) <==> Mended(log, |g.slots|, id, g.slots[id], h.slots[id])
    ensures Replay(c, g, log).1 == Ok
    decreases |log|
  {
    var n := |g.slots|;
    if log == [] {
      SameSlot(g, h, id);
      NothingToMend(n, id, g.slots[id], h.slots[id]);
    } else {
      var u, rec := log[..|log| - 1], log[|log| - 1];
      InvertOne(c, g, h, rec, id);
      InvertKeepsSize(c, g, rec);
      InvertKeepsSize(c, h, rec);
      ReplayMends(c, Invert(c, g, rec).0, Invert(c, h, rec).0, u, id);
      if rec.kind in SLOT_KINDS && TargetOf(n, rec) == id {
        MendedHere(c, log, n, id, g.slots[id], h.slots[id], g.freeHead);
      } else {
        MendedElsewhere(log, n, id, g.slots[id], h.slots[id]);
      }
    }
  }

  /**
   A change of a link, a status or a payload that a full log drops: abort restores the old heap if and only if the log
   restores every field that the change has made different.
   */
  lemma DroppedChange(c: Checksum, h: Heap, cap: nat, a: seq<Op>, op: Op)
    requires Proper(c) && WellSized(h) && RunsCovered(c, h, a) && AllInvertible(c, h, a) && RecordsOf(c, h, a) == cap
    requires var h1 := Run(c, h, [], cap, a).0;
      !op.Alloc? && WellSized(h1) && Covered(h1, op) && Apply(c, h1, op).err == Ok && Apply(c, h1, op).records != []
    ensures var (h1, log) := Run(c, h, [], cap, a);
      && WellSized(h1) && Records(log)
      && var e, id := Apply(c, h1, op), Subject(h1, op);
         && Append(log, cap, e.records) == log && WellSized(e.heap) && id < |h1.slots| == |e.heap.slots|
         && (Replay(c, e.heap, log) == (h, Ok) <==> Mended(log, |h1.slots|, id, h1.slots[id], e.heap.slots[id]))
  {
    var (h1, log) := Run(c, h, [], cap, a);
    ReplayIsInverse(c, h, cap, a);
    FilledLog(c, h, cap, a);
    var e, id := Apply(c, h1, op), Subject(h1, op);
    OneChange(c, h1, op);
    TakesNone(log, e.records);
    ReplayMends(c, h1, e.heap, log, id);
  }

  lemma OneChange(c: Checksum, h: Heap, op: Op)
    requires Proper(c) && WellSized(h) && Covered(h, op) && !op.Alloc? && Apply(c, h, op).err == Ok
    ensures var e, id := Apply(c, h, op), Subject(h, op);
      && WellSized(e.heap) && id < |h.slots| == |e.heap.slots| && OneDiffers(h, e.heap, id)
  {
    ApplyMeans(c, h, op);
    UndoExact(c, h, op);
  }

  /**
   For a link change that is: if and only if the log already held a record that restores the link of that slot.
   */
  lemma DroppedLinkChange(c: Checksum, h: Heap, cap: nat, a: seq<Op>, id: nat, next: Word)
    requires Proper(c) && WellSized(h) && RunsCovered(c, h, a) && AllInvertible(c, h, a) && RecordsOf(c, h, a) == cap
    requires var h1 := Run(c, h, [], cap, a).0; WellSized(h1) && NextEffect(c, h1, id, next).records != []
    ensures var (h1, log) := Run(c, h, [], cap, a);
      && WellSized(h1) && Records(log)
      && var e := NextEffect(c, h1, id, next);
         && Append(log, cap, e.records) == log && |e.heap.slots| <= MOST_SLOTS
         && (Replay(c, e.heap, log) == (h, Ok) <==> Restores(log, |h1.slots|, id, LINK_KINDS))
  {
    var (h1, log) := Run(c, h, [], cap, a);
    DroppedChange(c, h, cap, a, SetNext(id, next));
    if Restores(log, |h1.slots|, id, LINK_KINDS) {
      RestoresMore(log, |h1.slots|, id, LINK_KINDS, SLOT_KINDS);
    }
  }

  /** For a status change: if and only if the log restores the status of that slot. */
  lemma DroppedStatusChange(c: Checksum, h: Heap, cap: nat, a: seq<Op>, id: nat, status: nat)
    requires Proper(c) && WellSized(h) && RunsCovered(c, h, a) && AllInvertible(c, h, a) && RecordsOf(c, h, a) == cap
    requires var h1 := Run(c, h, [], cap, a).0;
      && WellSized(h1) && Covered(h1, SetStatus(id, status))
      && StatusEffect(c, h1, id, status).err == Ok && h1.slots[id].status != status
    ensures var (h1, log) := Run(c, h, [], cap, a);
      && WellSized(h1) && Records(log)
      && var e := StatusEffect(c, h1, id, status);
         && Append(log, cap, e.records) == log && |e.heap.slots| <= MOST_SLOTS
         && (Replay(c, e.heap, log) == (h, Ok) <==> Restores(log, |h1.slots|, id, STATUS_KINDS))
  {
    var (h1, log) := Run(c, h, [], cap, a);
    DroppedChange(c, h, cap, a, SetStatus(id, status));
    if Restores(log, |h1.slots|, id, STATUS_KINDS) {
      RestoresMore(log, |h1.slots|, id, STATUS_KINDS, SLOT_KINDS);
    }
  }

  lemma FilledLog(c: Checksum, h: Heap, cap: nat, a: seq<Op>)
    requires Proper(c) && WellSized(h) && RunsCovered(c, h, a) && RecordsOf(c, h, a) == cap
    ensures |Run(c, h, [], cap, a).1| == cap
  {
    LogIsPrefix(c, h, [], cap, a);
    RecordsCounted(c, h, a);
    assert [] + AllRecords(c, h, a) == AllRecords(c, h, a);
  }

  lemma {:induction false} RecordsCounted(c: Checksum, h: Heap, ops: seq<Op>)
    requires Proper(c) && WellSized(h) && RunsCovered(c, h, ops)
    ensures |AllRecords(c, h, ops)| == RecordsOf(c, h, ops)
    decreases |ops|
  {
    if ops != [] {
      UndoExact(c, h, ops[0]);
      RecordsCounted(c, Apply(c, h, ops[0]).heap, ops[1..]);
    }
  }

  // ---------- The free count ----------

  /** The free count that replay ends with. */
  function CountBack(count: nat, log: seq<Record>): nat
    decreases |log|
  {
    if log == [] then count
    else
      var rec := log[|log| - 1];
      CountBack(if rec.kind == FREE_COUNT then RestoredCount(count, Signed(rec.aux)) else count, log[..|log| - 1])
  }

  /** Replay works on the count by itself: no other record looks at it. */
  lemma {:induction false} ReplayCounts(c: Checksum, h: Heap, log: seq<Record>, count: nat)
    requires 0 < |h.slots| <= MOST_SLOTS && Records(log)
    ensures var g := h.(freeCount := count);
      && Replay(c, g, log) == (Replay(c, h, log).0.(freeCount := CountBack(count, log)), Ok)
      && Replay(c, h, log).1 == Ok
    decreases |log|
  {
    if log != [] {
      var rec, u := log[|log| - 1], log[..|log| - 1];
      var g := h.(freeCount := count);
      InvertKeepsSize(c, h, rec);
      InvertKeepsSize(c, g, rec);
      TargetInRange(|h.slots|, rec);
      var next := if rec.kind == FREE_COUNT then RestoredCount(count, Signed(rec.aux)) else count;
      assert Invert(c, g, rec).0 == Invert(c, h, rec).0.(freeCount := next);
      ReplayCounts(c, Invert(c, h, rec).0, u, next);
    }
  }

  /** Every record of the free count is one of an allocation. */
  predicate CountsDown(log: seq<Record>) {
    forall i: nat :: i < |log| && log[i].kind == FREE_COUNT ==> Signed(log[i].aux) == -1
  }

  function Allocations(log: seq<Record>): nat {
    if log == [] then 0 else Allocations(log[1..]) + if log[0].kind == FREE_COUNT then 1 else 0
  }

  lemma {:induction false} AllocationsLast(log: seq<Record>, rec: Record)
    ensures Allocations(log + [rec]) == Allocations(log) + if rec.kind == FREE_COUNT then 1 else 0
  {
    if log == [] {
      assert log + [rec] == [rec] && [rec][1..] == [];
    } else {
      assert (log + [rec])[1..] == log[1..] + [rec];
      AllocationsLast(log[1..], rec);
    }
  }

  lemma {:induction false} AllocationsAdd(log: seq<Record>, more: seq<Record>)
    ensures Allocations(log + more) == Allocations(log) + Allocations(more)
  {
    if log == [] {
      assert log + more == more;
    } else {
      assert (log + more)[1..] == log[1..] + more;
      AllocationsAdd(log[1..], more);
    }
  }

  /** From one up, the count rises by one for each. From zero it does not rise at all. */
  lemma {:induction false} CountRises(count: nat, log: seq<Record>)
    requires CountsDown(log) && count + Allocations(log) < COUNT_SPAN
    ensures CountBack(count, log) == if count == 0 then 0 else count + Allocations(log)
    decreases |log|
  {
    if log != [] {
      var u, rec := log[..|log| - 1], log[|log| - 1];
      assert u + [rec] == log;
      AllocationsLast(u, rec);
      CountRises(if rec.kind == FREE_COUNT then RestoredCount(count, Signed(rec.aux)) else count, u);
    }
  }

  /** What operations record of the free count is what they take off it. */
  lemma {:induction false} RunCounts(c: Checksum, h: Heap, log: seq<Record>, cap: nat, ops: seq<Op>)
    requires Proper(c) && WellSized(h) && RunsCovered(c, h, ops)
    ensures var all := AllRecords(c, h, ops);
      CountsDown(all) && Run(c, h, log, cap, ops).0.freeCount + Allocations(all) == h.freeCount
    decreases |ops|
  {
    if ops != [] {
      var e := Apply(c, h, ops[0]);
      UndoExact(c, h, ops[0]);
      ApplyMeans(c, h, ops[0]);
      OneCounts(c, h, ops[0]);
      RunCounts(c, e.heap, Append(log, cap, e.records), cap, ops[1..]);
      AllocationsAdd(e.records, AllRecords(c, e.heap, ops[1..]));
    }
  }

  lemma {:induction false} NoneCounts(log: seq<Record>)
    requires forall i: nat :: i < |log| ==> log[i].kind != FREE_COUNT
    ensures Allocations(log) == 0
  {
    if log != [] {
      NoneCounts(log[1..]);
    }
  }

  lemma TwoCount(a: Record, b: Record)
    requires a.kind != FREE_COUNT && b.kind == FREE_COUNT
    ensures Allocations([a, b]) == 1
  {
    AllocationsLast([a], b);
    AllocationsLast([], a);
    assert [a] + [b] == [a, b] && [] + [a] == [a];
  }

  lemma AllocCounts(c: Checksum, h: Heap, clear: bool)
    requires Proper(c) && WellSized(h)
    ensures var e := AllocEffect(c, h, clear);
      CountsDown(e.records) && e.heap.freeCount + Allocations(e.records) == h.freeCount
  {
    var e := AllocEffect(c, h, clear);
    AllocMeans(c, h, clear);
    if e.err == Ok {
      TwoCount(e.records[0], e.records[1]);
      assert e.records == [e.records[0], e.records[1]];
    }
  }

  lemma OneCounts(c: Checksum, h: Heap, op: Op)
    requires Proper(c) && WellSized(h) && Covered(h, op)
    ensures var e := Apply(c, h, op);
      CountsDown(e.records) && e.heap.freeCount + Allocations(e.records) == h.freeCount
  {
    if op.Alloc? {
      AllocCounts(c, h, op.clear);
    } else {
      ApplyMeans(c, h, op);
      NoneCounts(Apply(c, h, op).records);
    }
  }

  /** A run whose records fit: what the log holds, and what replay makes of it. */
  lemma FittingRun(c: Checksum, h: Heap, cap: nat, a: seq<Op>, h1: Heap, log: seq<Record>)
    requires Proper(c) && WellSized(h) && RunsCovered(c, h, a) && AllInvertible(c, h, a) && RecordsOf(c, h, a) <= cap
    requires (h1, log) == Run(c, h, [], cap, a)
    ensures WellSized(h1) && Records(log) && Replay(c, h1, log) == (h, Ok)
    ensures |log| == RecordsOf(c, h, a) && CountsDown(log) && h1.freeCount + Allocations(log) == h.freeCount
  {
    ReplayIsInverse(c, h, cap, a);
    LogIsPrefix(c, h, [], cap, a);
    RecordsCounted(c, h, a);
    assert [] + AllRecords(c, h, a) == AllRecords(c, h, a);
    RunCounts(c, h, [], cap, a);
  }

  /**
   An allocation of which a full log drops both records is never undone: the count comes back at least one too low.
   */
  lemma DroppedAlloc(c: Checksum, h: Heap, cap: nat, a: seq<Op>, clear: bool)
    requires Proper(c) && WellSized(h) && RunsCovered(c, h, a) && AllInvertible(c, h, a) && RecordsOf(c, h, a) == cap
    requires var h1 := Run(c, h, [], cap, a).0; WellSized(h1) && AllocEffect(c, h1, clear).err == Ok
    ensures var (h1, log) := Run(c, h, [], cap, a);
      && WellSized(h1) && Records(log)
      && var e := AllocEffect(c, h1, clear);
         && Append(log, cap, e.records) == log && |e.heap.slots| <= MOST_SLOTS
         && Replay(c, e.heap, log).0.freeCount == (if h1.freeCount == 1 then 0 else h.freeCount - 1) < h.freeCount
  {
    var (h1, log) := Run(c, h, [], cap, a);
    FittingRun(c, h, cap, a, h1, log);
    TakesNone(log, AllocEffect(c, h1, clear).records);
    AllocTakesOne(c, h1, clear);
    AllocStays(c, h.freeCount, h1, log, clear);
  }

  lemma TakesNone(log: seq<Record>, recs: seq<Record>)
    ensures Append(log, |log|, recs) == log
  {
    AppendKeepsFitting(log, |log|, recs);
  }

  lemma AllocStays(c: Checksum, count: nat, h1: Heap, log: seq<Record>, clear: bool)
    requires Proper(c) && WellSized(h1) && AllocEffect(c, h1, clear).err == Ok && Records(log)
    requires CountsDown(log) && h1.freeCount + Allocations(log) == count < COUNT_SPAN
    ensures |AllocEffect(c, h1, clear).heap.slots| <= MOST_SLOTS && 1 <= h1.freeCount <= count
    ensures Replay(c, AllocEffect(c, h1, clear).heap, log).0.freeCount == if h1.freeCount == 1 then 0 else count - 1
  {
    AllocUndone(c, h1, log, clear);
    CountRises(h1.freeCount - 1, log);
  }

  lemma AllocUndone(c: Checksum, h1: Heap, log: seq<Record>, clear: bool)
    requires Proper(c) && WellSized(h1) && AllocEffect(c, h1, clear).err == Ok && Records(log)
    ensures |AllocEffect(c, h1, clear).heap.slots| <= MOST_SLOTS && h1.freeCount >= 1
    ensures Replay(c, AllocEffect(c, h1, clear).heap, log).0.freeCount == CountBack(h1.freeCount - 1, log)
  {
    AllocTakesOne(c, h1, clear);
    CountOfReplay(c, AllocEffect(c, h1, clear).heap, log);
  }

  lemma AllocTakesOne(c: Checksum, h: Heap, clear: bool)
    requires Proper(c) && WellSized(h) && AllocEffect(c, h, clear).err == Ok
    ensures var g := AllocEffect(c, h, clear).heap;
      h.freeCount >= 1 && g.freeCount == h.freeCount - 1 && 0 < |g.slots| == |h.slots| <= MOST_SLOTS
  {
    ApplyMeans(c, h, Alloc(clear));
  }

  lemma CountOfReplay(c: Checksum, h: Heap, log: seq<Record>)
    requires 0 < |h.slots| <= MOST_SLOTS && Records(log)
    ensures Replay(c, h, log).0.freeCount == CountBack(h.freeCount, log)
  {
    ReplayCounts(c, h, log, h.freeCount);
    assert h.(freeCount := h.freeCount) == h;
  }

  /** With only its first record kept, an allocation is undone but for the count. */
  lemma FirstRecordBack(c: Checksum, h: Heap, clear: bool)
    requires Proper(c) && WellSized(h) && Invertible(c, h, Alloc(clear)) && AllocEffect(c, h, clear).err == Ok
    ensures var e := AllocEffect(c, h, clear);
      && |e.records| == 2 && |e.records[0].before| == 12 && |e.heap.slots| <= MOST_SLOTS && h.freeCount >= 2
      && Invert(c, e.heap, e.records[0]) == (h.(freeCount := h.freeCount - 1), Ok)
  {
    var e := AllocEffect(c, h, clear);
    NamesOff(|h.slots|, h.freeHead);
    var id := At(|h.slots|, h.freeHead).id;
    var s, s', rec := h.slots[id], e.heap.slots[id], e.records[0];
    TargetBack(|h.slots|, SLOT_ALLOC, id, rec.before);
    var h1 := e.heap.(freeCount := h.freeCount, freeHead := h.freeHead);
    OneSlotBack(h, h1, id, s'.(next := s.next, status := FREE, crc := 0));
  }

  /** With room left for one record, the record of the free count is dropped, and the count comes back one too low. */
  lemma HalfRecordedAlloc(c: Checksum, h: Heap, cap: nat, a: seq<Op>, clear: bool)
    requires Proper(c) && WellSized(h) && RunsCovered(c, h, a) && AllInvertible(c, h, a)
    requires RecordsOf(c, h, a) + 1 == cap
    requires var h1 := Run(c, h, [], cap, a).0;
      WellSized(h1) && Invertible(c, h1, Alloc(clear)) && AllocEffect(c, h1, clear).err == Ok
    ensures var (h1, log) := Run(c, h, [], cap, a);
      && WellSized(h1) && Records(log)
      && var e := AllocEffect(c, h1, clear);
         && |e.heap.slots| <= MOST_SLOTS && Records(Append(log, cap, e.records))
         && h.freeCount > 0
         && Replay(c, e.heap, Append(log, cap, e.records)) == (h.(freeCount := h.freeCount - 1), Ok)
  {
    var (h1, log) := Run(c, h, [], cap, a);
    FittingRun(c, h, cap, a, h1, log);
    HalfUndone(c, h, h1, log, clear);
  }

  lemma HalfUndone(c: Checksum, h: Heap, h1: Heap, log: seq<Record>, clear: bool)
    requires Proper(c) && WellSized(h1) && Invertible(c, h1, Alloc(clear)) && AllocEffect(c, h1, clear).err == Ok
    requires Records(log) && Replay(c, h1, log) == (h, Ok)
    requires CountsDown(log) && h1.freeCount + Allocations(log) == h.freeCount < COUNT_SPAN
    ensures var e := AllocEffect(c, h1, clear);
      && |e.heap.slots| <= MOST_SLOTS && Records(Append(log, |log| + 1, e.records)) && h.freeCount > 0
      && Replay(c, e.heap, Append(log, |log| + 1, e.records)) == (h.(freeCount := h.freeCount - 1), Ok)
  {
    FirstRecordBack(c, h1, clear);
    AllocTakesOne(c, h1, clear);
    var e := AllocEffect(c, h1, clear);
    KeepsFirst(log, |log| + 1, e.records);
    ReplayLast(c, e.heap, log, e.records[0]);
    OneFewer(c, h, h1, log);
  }

  /** Replay from a count that is one lower ends with a count that is one lower. */
  lemma OneFewer(c: Checksum, h: Heap, h1: Heap, log: seq<Record>)
    requires 0 < |h1.slots| <= MOST_SLOTS && Records(log) && Replay(c, h1, log) == (h, Ok) && h1.freeCount > 1
    requires CountsDown(log) && h1.freeCount + Allocations(log) == h.freeCount < COUNT_SPAN
    ensures h.freeCount > 0
    ensures Replay(c, h1.(freeCount := h1.freeCount - 1), log) == (h.(freeCount := h.freeCount - 1), Ok)
  {
    CountRises(h1.freeCount - 1, log);
    ReplayCounts(c, h1, log, h1.freeCount - 1);
  }

  lemma KeepsFirst(log: seq<Record>, cap: nat, recs: seq<Record>)
    requires |log| + 1 == cap && |recs| == 2
    ensures Append(log, cap, recs) == log + [recs[0]]
  {
    AppendKeepsFitting(log, cap, recs);
    assert (log + recs)[..cap] == log + [recs[0]];
  }

  // ---------- A log filled to the last record ----------

  /** `k` changes of the link of slot `x`, to `to` and back in turn. */
  function Toggles(x: nat, back: Word, to: Word, k: nat): seq<Op>
    decreases k
  {
    if k == 0 then [] else [SetNext(x, to)] + Toggles(x, to, back, k - 1)
  }

  /** Two used slots with good checksums; the second has no link, the first has none or one to the second. */
  ghost predicate Pair(c: Checksum, h: Heap, x: nat, y: nat) {
    && x < |h.slots| && y < |h.slots| && x != y
    && h.slots[x].status == USED && h.slots[y].status == USED
    && CrcValid(c, x, h.slots[x]) && CrcValid(c, y, h.slots[y])
    && h.slots[y].next == 0 && (h.slots[x].next == 0 || h.slots[x].next == Off(y))
  }

  lemma ToggleStep(c: Checksum, h: Heap, x: nat, y: nat, to: Word)
    requires Proper(c) && WellSized(h) && Pair(c, h, x, y) && (to == 0 || to == Off(y)) && to != h.slots[x].next
    ensures var e := NextEffect(c, h, x, to);
      && e.err == Ok && |e.records| == 1 && TargetOf(|h.slots|, e.records[0]) == x
      && Pair(c, e.heap, x, y) && e.heap.slots[x].next == to && |e.heap.slots| == |h.slots|
  {
    OffNames(|h.slots|, y);
    TargetBack(|h.slots|, SLOT_NEXT, x, NextBytes(h.slots[x].next));
  }

  ghost predicate AllAbout(log: seq<Record>, n: nat, x: nat) {
    forall i: nat :: i < |log| ==> TargetOf(n, log[i]) == x
  }

  ghost predicate Toggled(c: Checksum, h: Heap, x: nat, y: nat, ops: seq<Op>, k: nat)
    requires Proper(c) && WellSized(h)
  {
    && RunsCovered(c, h, ops) && AllInvertible(c, h, ops) && RecordsOf(c, h, ops) == k
    && AllAbout(AllRecords(c, h, ops), |h.slots|, x)
  }

  lemma {:induction false} ToggleRun(c: Checksum, h: Heap, x: nat, y: nat, back: Word, to: Word, k: nat)
    requires Proper(c) && WellSized(h) && Pair(c, h, x, y) && h.slots[x].next == back && back != to
    requires (back == 0 && to == Off(y)) || (back == Off(y) && to == 0)
    ensures Toggled(c, h, x, y, Toggles(x, back, to, k), k)
    decreases k
  {
    if k > 0 {
      ToggleStep(c, h, x, y, to);
      UndoExact(c, h, SetNext(x, to));
      var e := NextEffect(c, h, x, to);
      ToggleRun(c, e.heap, x, y, to, back, k - 1);
      ToggleMore(c, h, x, y, back, to, k);
    }
  }

  lemma ToggleMore(c: Checksum, h: Heap, x: nat, y: nat, back: Word, to: Word, k: nat)
    requires Proper(c) && WellSized(h) && k > 0
    requires var e := NextEffect(c, h, x, to);
      && |e.records| == 1 && TargetOf(|h.slots|, e.records[0]) == x && |e.heap.slots| == |h.slots| && WellSized(e.heap)
      && Toggled(c, e.heap, x, y, Toggles(x, to, back, k - 1), k - 1)
    ensures Toggled(c, h, x, y, Toggles(x, back, to, k), k)
  {
    var ops, rest := Toggles(x, back, to, k), Toggles(x, to, back, k - 1);
    assert ops[0] == SetNext(x, to) && ops[1..] == rest;
    UndoExact(c, h, ops[0]);
    UndoNext(c, h, x, to);
  }

  lemma {:induction false} PairRuns(c: Checksum, h: Heap, x: nat, y: nat, back: Word, to: Word, k: nat, cap: nat,
      log: seq<Record>)
    requires Proper(c) && WellSized(h) && Pair(c, h, x, y) && h.slots[x].next == back && back != to
    requires (back == 0 && to == Off(y)) || (back == Off(y) && to == 0)
    requires RunsCovered(c, h, Toggles(x, back, to, k))
    ensures Pair(c, Run(c, h, log, cap, Toggles(x, back, to, k)).0, x, y)
    decreases k
  {
    if k > 0 {
      var ops, rest := Toggles(x, back, to, k), Toggles(x, to, back, k - 1);
      assert ops[0] == SetNext(x, to) && ops[1..] == rest;
      ToggleStep(c, h, x, y, to);
      UndoExact(c, h, SetNext(x, to));
      var e := NextEffect(c, h, x, to);
      PairRuns(c, e.heap, x, y, to, back, k - 1, cap, Append(log, cap, e.records));
    }
  }

  /**
   An input of every size of log: as many changes of one link as it has room for, and then one of another link. All
   of them are invertible, the last is not recorded, and abort does not restore the heap.
   */
  lemma FullLogWitness(c: Checksum, h: Heap, x: nat, y: nat, cap: nat)
    requires Proper(c) && WellSized(h) && Pair(c, h, x, y) && h.slots[x].next == 0
    ensures var a := Toggles(x, 0, Off(y), cap);
      && RunsCovered(c, h, a) && AllInvertible(c, h, a) && RecordsOf(c, h, a) == cap
      && var (h1, log) := Run(c, h, [], cap, a);
         && |h1.slots| <= MOST_SLOTS && Records(log)
         && var e := NextEffect(c, h1, y, Off(x));
            && e.err == Ok && Append(log, cap, e.records) == log && |e.heap.slots| <= MOST_SLOTS
            && Replay(c, e.heap, log) != (h, Ok)
  {
    var a := Toggles(x, 0, Off(y), cap);
    ToggleRun(c, h, x, y, 0, Off(y), cap);
    PairRuns(c, h, x, y, 0, Off(y), cap, cap, []);
    RunKeepsSize(c, h, [], cap, a);
    var (h1, log) := Run(c, h, [], cap, a);
    OffNames(|h1.slots|, x);
    ReplayIsInverse(c, h, cap, a);
    DroppedLinkChange(c, h, cap, a, y, Off(x));
    LogIsPrefix(c, h, [], cap, a);
    RecordsCounted(c, h, a);
    assert [] + AllRecords(c, h, a) == AllRecords(c, h, a);
    assert AllAbout(log, |h.slots|, x);
  }
}
