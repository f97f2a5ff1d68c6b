/**
 One-byte locks emulated by compare-and-swap of the 32-bit word around them (`src/ef_atomic_unaligned.h`), as used
 on the superblock word that holds the hash capacity (two bytes), the queue lock and the index write lock
 (`src/ef_sb_layout.c`). Any number of threads, each step one load or one compare-and-swap of the word.
 */
module ByteLocks {

  // ---------- The word ----------

  datatype Lane = QueueLock | IndexLock

  function Capacity(w: bv32): bv32 {
    w & 0xFFFF
  }

  function Byte(w: bv32, lane: Lane): bv32 {
    match lane
    case QueueLock => (w >> 16) & 0xFF
    case IndexLock => (w >> 24) & 0xFF
  }

  /** The word with one byte replaced, as both `ef_atomic_store_u8` and `ef_atomic_cas_u8` compute it. */
  function WithByte(w: bv32, lane: Lane, v: bv32): bv32 {
    match lane
    case QueueLock => (w & !(0xFF << 16)) | (v << 16)
    case IndexLock => (w & !(0xFF << 24)) | (v << 24)
  }

  /** The word with the capacity replaced (`ef_sb_hash_capacity_store`). */
  function WithCapacity(w: bv32, c: bv32): bv32 {
    (w & 0xFFFF_0000) | c
  }

  /** The three fields that share the word. */
  datatype Fields = Fields(capacity: bv32, queueLock: bv32, indexLock: bv32)

  function View(w: bv32): Fields {
    Fields(Capacity(w), Byte(w, QueueLock), Byte(w, IndexLock))
  }

  function Lock(f: Fields, lane: Lane): bv32 {
    match lane
    case QueueLock => f.queueLock
    case IndexLock => f.indexLock
  }

  function SetLock(f: Fields, lane: Lane, v: bv32): Fields {
    match lane
    case QueueLock => f.(queueLock := v)
    case IndexLock => f.(indexLock := v)
  }

  lemma QueueByteLaws(w: bv32, v: bv32)
    requires v <= 0xFF
    ensures ((w & !(0xFF << 16)) | (v << 16)) & 0xFFFF == w & 0xFFFF
    ensures (((w & !(0xFF << 16)) | (v << 16)) >> 16) & 0xFF == v
    ensures (((w & !(0xFF << 16)) | (v << 16)) >> 24) & 0xFF == (w >> 24) & 0xFF
  {
  }

  lemma IndexByteLaws(w: bv32, v: bv32)
    requires v <= 0xFF
    ensures ((w & !(0xFF << 24)) | (v << 24)) & 0xFFFF == w & 0xFFFF
    ensures (((w & !(0xFF << 24)) | (v << 24)) >> 16) & 0xFF == (w >> 16) & 0xFF
    ensures (((w & !(0xFF << 24)) | (v << 24)) >> 24) & 0xFF == v
  {
  }

  lemma CapacityLaws(w: bv32, c: bv32)
    requires c <= 0xFFFF
    ensures ((w & 0xFFFF_0000) | c) & 0xFFFF == c
    ensures (((w & 0xFFFF_0000) | c) >> 16) & 0xFF == (w >> 16) & 0xFF
    ensures (((w & 0xFFFF_0000) | c) >> 24) & 0xFF == (w >> 24) & 0xFF
  {
  }

  lemma ViewOf(w: bv32, capacity: bv32, queueLock: bv32, indexLock: bv32)
    requires w & 0xFFFF == capacity && (w >> 16) & 0xFF == queueLock && (w >> 24) & 0xFF == indexLock
    ensures View(w) == Fields(capacity, queueLock, indexLock)
  {
  }

  /** The fields of a word that differs from `w` in one lock byte. */
  lemma OneByte(w: bv32, w': bv32, lane: Lane, v: bv32)
    requires w' & 0xFFFF == w & 0xFFFF
    requires (w' >> 16) & 0xFF == if lane.QueueLock? then v else (w >> 16) & 0xFF
    requires (w' >> 24) & 0xFF == if lane.IndexLock? then v else (w >> 24) & 0xFF
    ensures View(w') == SetLock(View(w), lane, v)
  {
    ViewOf(w, w & 0xFFFF, (w >> 16) & 0xFF, (w >> 24) & 0xFF);
    ViewOf(w', w' & 0xFFFF, (w' >> 16) & 0xFF, (w' >> 24) & 0xFF);
  }

  /** Patching one lock byte of the word changes that byte and no other field. */
  lemma PatchByte(w: bv32, lane: Lane, v: bv32)
    requires v <= 0xFF
    ensures View(WithByte(w, lane, v)) == SetLock(View(w), lane, v)
  {
    match lane
    case QueueLock =>
      QueueByteLaws(w, v);
      OneByte(w, (w & !(0xFF << 16)) | (v << 16), QueueLock, v);
    case IndexLock =>
      IndexByteLaws(w, v);
      OneByte(w, (w & !(0xFF << 24)) | (v << 24), IndexLock, v);
  }

  /** Patching the capacity leaves both lock bytes alone. */
  lemma PatchCapacity(w: bv32, c: bv32)
    requires c <= 0xFFFF
    ensures View(WithCapacity(w, c)) == View(w).(capacity := c)
  {
    CapacityLaws(w, c);
  }

  // ---------- Operations ----------

  datatype Op =
    | Cas(lane: Lane, expected: bv32, desired: bv32)
    | Store(lane: Lane, value: bv32)
    | StoreCapacity(value: bv32)

  predicate OpFits(op: Op) {
    match op
    case Cas(_, e, d) => e <= 0xFF && d <= 0xFF
    case Store(_, v) => v <= 0xFF
    case StoreCapacity(c) => c <= 0xFFFF
  }

  /** What the operation would do as one indivisible operation on its own field, and its result. */
  function Atomic(op: Op, f: Fields): (Fields, bool) {
    match op
    case Cas(lane, e, d) => if Lock(f, lane) == e then (SetLock(f, lane, d), true) else (f, false)
    case Store(lane, v) => (SetLock(f, lane, v), true)
    case StoreCapacity(c) => (f.(capacity := c), true)
  }

  /** The word that the loop tries to swap in for the word it has seen. */
  function Desired(op: Op, seen: bv32): bv32 {
    match op
    case Cas(lane, _, d) => WithByte(seen, lane, d)
    case Store(lane, v) => WithByte(seen, lane, v)
    case StoreCapacity(c) => WithCapacity(seen, c)
  }

  /** A byte compare-and-swap gives up when the word it has seen holds another byte. */
  predicate GivesUp(op: Op, seen: bv32) {
    op.Cas? && Byte(seen, op.lane) != op.expected
  }

  /** Where one execution of the loop stands. */
  datatype Phase = Start | Seen(word: bv32) | Returned(ok: bool)

  /**
   One step of the loop: a load, or a compare-and-swap. One that fails gives the word that it has met to a byte
   operation; the capacity loop goes back to its load.
   */
  ghost predicate LoopStep(op: Op, w: bv32, ph: Phase, w': bv32, ph': Phase) {
    match ph
    case Start => w' == w && ph' == After(op, w)
    case Seen(word) =>
      if w == word then w' == Desired(op, word) && ph' == Returned(true)
      else w' == w && ph' == if op.StoreCapacity? then Start else After(op, w)
    case Returned(_) => false
  }

  /** What the loop does with a word it has just loaded. */
  function After(op: Op, seen: bv32): Phase {
    if GivesUp(op, seen) then Returned(false) else Seen(seen)
  }

  ghost predicate PhaseOk(op: Op, ph: Phase) {
    ph.Seen? ==> !GivesUp(op, ph.word)
  }

  /**
   Each step of the emulation either changes nothing and goes on, or is the whole operation, done atomically on
   its own field with the atomic result.
   */
  lemma StepIsAtomicOrStutters(op: Op, w: bv32, ph: Phase, w': bv32, ph': Phase)
    requires OpFits(op) && PhaseOk(op, ph) && LoopStep(op, w, ph, w', ph')
    ensures PhaseOk(op, ph')
    ensures ph'.Returned? ==> (View(w'), ph'.ok) == Atomic(op, View(w))
    ensures !ph'.Returned? ==> w' == w
  {
    GiveUpIsFailure(op, w);
    if ph.Seen? && ph.word == w {
      SwapIsAtomic(op, w);
    }
  }

  lemma GiveUpIsFailure(op: Op, w: bv32)
    ensures GivesUp(op, w) ==> (View(w), false) == Atomic(op, View(w))
  {
    if op.Cas? {
      assert Byte(w, op.lane) == Lock(View(w), op.lane);
    }
  }

  lemma SwapIsAtomic(op: Op, w: bv32)
    requires OpFits(op) && !GivesUp(op, w)
    ensures (View(Desired(op, w)), true) == Atomic(op, View(w))
  {
    match op
    case Cas(lane, e, d) =>
      assert Byte(w, lane) == Lock(View(w), lane);
      PatchByte(w, lane, d);
    case Store(lane, v) => PatchByte(w, lane, v);
    case StoreCapacity(c) => PatchCapacity(w, c);
  }

  /** The capacity is in the low two bytes of the word, the queue lock in the third and the index lock in the last. */
  lemma FieldsInWord(w: bv32)
    ensures View(w) == Fields(w & 0xFFFF, (w & 0xFF_0000) >> 16, w >> 24)
    ensures View(0x0102_0304) == Fields(0x0304, 0x02, 0x01)
  {
    assert (w >> 16) & 0xFF == (w & 0xFF_0000) >> 16;
    assert (w >> 24) & 0xFF == w >> 24;
  }

  /** Without interference a loop ends: a swap whose byte does not match at its load, all else at its first swap. */
  lemma LoopAlone(op: Op, w: bv32, w1: bv32, ph1: Phase, w2: bv32, ph2: Phase)
    requires OpFits(op) && LoopStep(op, w, Start, w1, ph1)
    ensures w1 == w && !ph1.Start?
    ensures ph1.Returned? <==> op.Cas? && Lock(View(w), op.lane) != op.expected
    ensures ph1.Returned? ==> !ph1.ok
    ensures ph1.Seen? && LoopStep(op, w1, ph1, w2, ph2) ==> ph2 == Returned(true) && View(w2) == Atomic(op, View(w)).0
  {
    if op.Cas? {
      assert Byte(w, op.lane) == Lock(View(w), op.lane);
    }
    if ph1.Seen? {
      SwapIsAtomic(op, w);
    }
  }

  // ---------- All interleavings ----------

  type Tid = nat

  datatype Activity = Resting | Doing(op: Op, phase: Phase)

  /** A thread, the locks it holds, and the loop it is in. */
  datatype Thread = Thread(holds: set<Lane>, activity: Activity)

  /**
   `fields` and `log` are history: what indivisible operations would have made of the fields, and the operations
   that have returned, with their results, in the order of their return steps.
   */
  datatype State = State(word: bv32, fields: Fields, threads: map<Tid, Thread>, log: seq<(Op, bool)>)

  /** Locks are taken by a swap of 0 for 1 and given back by a store of 0, by their holder only. */
  ghost predicate MayStart(th: Thread, op: Op) {
    match op
    case Cas(lane, e, d) => lane !in th.holds && e == 0 && d == 1
    case Store(lane, v) => lane in th.holds && v == 0
    case StoreCapacity(c) => c <= 0xFFFF
  }

  function HoldsAfter(holds: set<Lane>, op: Op, ok: bool): set<Lane> {
    match op
    case Cas(lane, _, _) => if ok then holds + {lane} else holds
    case Store(lane, _) => holds - {lane}
    case StoreCapacity(_) => holds
  }

  ghost predicate ThreadStep(s: State, s': State, t: Tid)
    requires t in s.threads
  {
    var th := s.threads[t];
    match th.activity
    case Resting =>
      exists op: Op :: MayStart(th, op) && s' == s.(threads := s.threads[t := th.(activity := Doing(op, Start))])
    case Doing(op, ph) =>
      exists w': bv32, ph': Phase :: LoopStep(op, s.word, ph, w', ph') && Takes(s, s', t, op, w', ph')
  }

  ghost predicate Takes(s: State, s': State, t: Tid, op: Op, w': bv32, ph': Phase)
    requires t in s.threads
  {
    if ph'.Returned? then
      s' == State(w', Atomic(op, s.fields).0, s.threads[t := Thread(HoldsAfter(s.threads[t].holds, op, ph'.ok),
          Resting)],
                  s.log + [(op, ph'.ok)])
    else
      s' == State(w', s.fields, s.threads[t := s.threads[t].(activity := Doing(op, ph'))], s.log)
  }

  ghost predicate Next(s: State, s': State) {
    exists t: Tid :: t in s.threads && ThreadStep(s, s', t)
  }

  ghost predicate Init(s: State) {
    && s.fields == View(s.word) && s.fields.queueLock == 0 && s.fields.indexLock == 0 && s.log == []
    && forall t: Tid :: t in s.threads ==> s.threads[t] == Thread({}, Resting)
  }

  /** The fields after the logged operations, one after the other. */
  function Replay(f: Fields, log: seq<(Op, bool)>): Fields {
    if log == [] then f else Atomic(log[|log| - 1].0, Replay(f, log[..|log| - 1])).0
  }

  /** Every logged result is the result of the atomic operation at its place in the log. */
  ghost predicate Legal(f: Fields, log: seq<(Op, bool)>) {
    log == [] ||
    (Legal(f, log[..|log| - 1]) && log[|log| - 1].1 == Atomic(log[|log| - 1].0, Replay(f, log[..|log| - 1])).1)
  }

  lemma Extend(f: Fields, log: seq<(Op, bool)>, op: Op, ok: bool)
    requires Legal(f, log) && ok == Atomic(op, Replay(f, log)).1
    ensures Legal(f, log + [(op, ok)]) && Replay(f, log + [(op, ok)]) == Atomic(op, Replay(f, log)).0
  {
    assert (log + [(op, ok)])[..|log|] == log;
  }

  ghost predicate ThreadOk(th: Thread) {
    th.activity.Doing? ==> && OpFits(th.activity.op) && PhaseOk(th.activity.op, th.activity.phase)
                           && MayStart(th, th.activity.op) && !th.activity.phase.Returned?
  }

  /** One holder for each lock byte that is 1, none for one that is 0. */
  ghost predicate LaneOk(s: State, lane: Lane) {
    && (Lock(s.fields, lane) == 0 || Lock(s.fields, lane) == 1)
    && (Lock(s.fields, lane) == 1 <==> exists t: Tid :: HolderOf(s, lane, t))
    && forall t: Tid, u: Tid :: HolderOf(s, lane, t) && HolderOf(s, lane, u) ==> t == u
  }

  ghost predicate HolderOf(s: State, lane: Lane, t: Tid) {
    t in s.threads && lane in s.threads[t].holds
  }

  ghost predicate Inv(s: State, start: Fields) {
    && View(s.word) == s.fields && s.fields == Replay(start, s.log) && Legal(start, s.log)
    && (forall t: Tid :: t in s.threads ==> ThreadOk(s.threads[t]))
    && LaneOk(s, QueueLock) && LaneOk(s, IndexLock)
  }

  lemma StartKeeps(s: State, s': State, start: Fields, t: Tid)
    requires Inv(s, start) && t in s.threads && s.threads[t].activity.Resting? && ThreadStep(s, s', t)
    ensures Inv(s', start)
  {
    assert forall lane: Lane, u: Tid :: HolderOf(s', lane, u) <==> HolderOf(s, lane, u);
  }

  lemma ViewFollows(op: Op, w: bv32, ph: Phase, w': bv32, ph': Phase, f: Fields)
    requires OpFits(op) && PhaseOk(op, ph) && LoopStep(op, w, ph, w', ph') && View(w) == f
    ensures PhaseOk(op, ph')
    ensures View(w') == if ph'.Returned? then Atomic(op, f).0 else f
    ensures ph'.Returned? ==> ph'.ok == Atomic(op, f).1
  {
    StepIsAtomicOrStutters(op, w, ph, w', ph');
  }

  lemma TakesKeeps(s: State, s': State, start: Fields, t: Tid, op: Op, w': bv32, ph': Phase)
    requires Inv(s, start) && t in s.threads && OpFits(op) && MayStart(s.threads[t], op) && Takes(s, s', t, op, w', ph')
    requires PhaseOk(op, ph') && View(w') == if ph'.Returned? then Atomic(op, s.fields).0 else s.fields
    requires ph'.Returned? ==> ph'.ok == Atomic(op, s.fields).1
    ensures Inv(s', start)
  {
    if ph'.Returned? {
      Extend(start, s.log, op, ph'.ok);
    }
    LaneFollows(s, s', t, op, w', ph', QueueLock);
    LaneFollows(s, s', t, op, w', ph', IndexLock);
  }

  /** How a step changes one lock byte and its holders. */
  lemma LaneFollows(s: State, s': State, t: Tid, op: Op, w': bv32, ph': Phase, lane: Lane)
    requires t in s.threads && MayStart(s.threads[t], op) && LaneOk(s, lane) && Takes(s, s', t, op, w', ph')
    requires ph'.Returned? ==> ph'.ok == Atomic(op, s.fields).1
    ensures LaneOk(s', lane)
  {
    assert forall u: Tid :: u != t ==> (HolderOf(s', lane, u) <==> HolderOf(s, lane, u));
    if ph'.Returned? && op.Cas? && op.lane == lane && ph'.ok {
      assert HolderOf(s', lane, t);
    } else if ph'.Returned? && op.Store? && op.lane == lane {
      assert HolderOf(s, lane, t);
    } else {
      assert HolderOf(s', lane, t) <==> HolderOf(s, lane, t);
      assert Lock(s'.fields, lane) == Lock(s.fields, lane);
    }
  }

  lemma LoopKeeps(s: State, s': State, start: Fields, t: Tid)
    requires Inv(s, start) && t in s.threads && s.threads[t].activity.Doing? && ThreadStep(s, s', t)
    ensures Inv(s', start)
  {
    var Doing(op, ph) := s.threads[t].activity;
    var w', ph' :| LoopStep(op, s.word, ph, w', ph') && Takes(s, s', t, op, w', ph');
    ViewFollows(op, s.word, ph, w', ph', s.fields);
    TakesKeeps(s, s', start, t, op, w', ph');
  }

  lemma NextKeeps(s: State, s': State, start: Fields)
    requires Inv(s, start) && Next(s, s')
    ensures Inv(s', start)
  {
    var t: Tid :| t in s.threads && ThreadStep(s, s', t);
    if s.threads[t].activity.Resting? {
      StartKeeps(s, s', start, t);
    } else {
      LoopKeeps(s, s', start, t);
    }
  }

  ghost predicate Run(trace: seq<State>) {
    trace != [] && Init(trace[0]) && forall i: nat :: i + 1 < |trace| ==> Next(trace[i], trace[i + 1])
  }

  /**
   In every interleaving the word holds what its three fields would hold had the finished operations run one
   after the other, each indivisibly on its own field, with the same results.
   */
  lemma {:induction false} EmulationIsLinearizable(trace: seq<State>, i: nat)
    requires Run(trace) && i < |trace|
    ensures Inv(trace[i], View(trace[0].word))
    ensures View(trace[i].word) == Replay(View(trace[0].word), trace[i].log) && Legal(View(trace[0].word), trace[i].log)
  {
    if i > 0 {
      EmulationIsLinearizable(trace, i - 1);
      assert Next(trace[i - 1], trace[i - 1 + 1]);
      NextKeeps(trace[i - 1], trace[i], View(trace[0].word));
    }
  }

  /** At every moment each lock has at most one holder, and its byte says whether it has one. */
  lemma MutualExclusion(trace: seq<State>, i: nat, lane: Lane, t: Tid, u: Tid)
    requires Run(trace) && i < |trace| && HolderOf(trace[i], lane, t)
    ensures Byte(trace[i].word, lane) == 1
    ensures HolderOf(trace[i], lane, u) ==> t == u
  {
    EmulationIsLinearizable(trace, i);
  }
}
