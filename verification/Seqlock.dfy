/**
 Index readers and writers as interleaved steps (`src/ef_sb_layout.c`, `src/ef_index.c`): any number of threads on
 one handle, each step one load, store or compare-and-swap. A writer takes the write lock, makes the sequence odd,
 writes table words one at a time (or changes the capacity, as a rehash does), makes the sequence even and unlocks.
 A reader samples the sequence, probes word by word without a lock, and accepts only if the sequence is unchanged.
 */
module Seqlock {
  import opened Base
  import opened RobinHood
  import opened IndexTable
  import RobinHoodPut
  import RobinHoodRemove
  import Rebuild

  const SEQ_SPAN: nat := 0x1_0000_0000

  type Tid = nat

  /** A version of the table: its words, its capacity, and the base of the slots behind it. */
  datatype Version = Version(words: seq<Word>, capacity: nat, base: nat) {
    ghost predicate Fits() {
      2 * capacity <= |words|
    }

    ghost function Buckets(): seq<Entry>
      requires Fits()
    {
      Table(words, capacity)
    }

    ghost predicate WellFormed() {
      Fits() && RobinHood.WellFormed(Buckets())
    }
  }

  /** What a reader remembers. `began`, `at` and `total` are history: when it was called, and what it sampled. */
  datatype Sample = Sample(key: Word, began: nat, seq1: nat, at: nat, total: nat)

  datatype Thread =
    | Idle
    // writers
    | Locked
    | Beginning(loaded: nat)
    | Writing(goal: Version)
    | Ending(loaded: nat)
    | Ended
    // other users of the same lock, such as slot allocation
    | Holding
    // readers
    | Called(key: Word, began: nat)
    | Sampled(s: Sample)
    | LoadSlot(s: Sample, capacity: nat, i: nat)
    | LoadKey(s: Sample, capacity: nat, i: nat, slot: Word)
    | TestEmpty(s: Sample, capacity: nat, i: nat, slot: Word, found: Word)
    | Checking(s: Sample, result: Option<Entry>)
    | Accepted(s: Sample, result: Option<Entry>)
    // the slot id has been worked out with the base of version `seen`
    | Converted(s: Sample, hit: Entry, seen: nat)

  /**
   `versions` is the history of the table, one version a step, the last one current; `total` counts the
   increments of the sequence, whose stored value has 32 bits.
   */
  datatype State = State(
    versions: seq<Version>,
    sequence: nat,
    total: nat,
    lock: Option<Tid>,
    threads: map<Tid, Thread>) {

    ghost predicate Shaped() {
      versions != []
    }

    ghost function Now(): Version
      requires Shaped()
    {
      versions[|versions| - 1]
    }
  }

  // ---------- Steps ----------

  /** One step of thread `t`, which leaves the other threads alone. */
  ghost predicate Moves(s: State, s': State, t: Tid, next: Thread, v: Version, sequence: nat, total: nat,
      lock: Option<Tid>) {
    s' == State(s.versions + [v], sequence, total, lock, s.threads[t := next])
  }

  ghost predicate Stays(s: State, s': State, t: Tid, next: Thread)
    requires s.Shaped()
  {
    Moves(s, s', t, next, s.Now(), s.sequence, s.total, s.lock)
  }

  /**
   What one write section turns the table into: it carries out one insertion, removal, clearing or rehash, which may
   fail, or stops before it has changed anything. The stores on the way are any stores at all.
   */
  ghost predicate Outcome(v: Version, v': Version) {
    v.Fits() && v'.Fits() && |v'.words| == |v.words| &&
    if v'.capacity == v.capacity && v'.base == v.base
       && (v'.Buckets() == v.Buckets() || Rebuild.AllEmpty(v'.Buckets())) then true
    else
      || (v'.capacity == v.capacity > 0 && v'.base == v.base
        && exists key: Word, slot: Word :: Inserted(v.Buckets(), v'.Buckets(), key, slot))
      || (v'.capacity == v.capacity > 0 && v'.base == v.base
        && exists key: Word :: RobinHoodRemove.Remove(v.Buckets(), key) == Some(v'.Buckets()))
      || (v'.capacity > 0 && v'.base == Rebuild.SlotsBase(v'.capacity)
        && exists es: seq<Entry> :: Rehashed(v.Buckets(), v'.Buckets(), es))
  }

  ghost predicate Inserted(t: seq<Entry>, t': seq<Entry>, key: Word, slot: Word) {
    |t| > 0 && slot != 0 && t' == RobinHoodPut.Put(t, key, slot).table
  }

  /** The live entries, their slots rewritten, are inserted into an empty table up to the first that fails. */
  ghost predicate Rehashed(t: seq<Entry>, t': seq<Entry>, es: seq<Entry>) {
    && |t'| > 0 && |es| == |Rebuild.Compact(t)|
    && (forall i: nat :: i < |es| ==> es[i].key == Rebuild.Compact(t)[i].key && !Empty(es[i]))
    && t' == Rebuild.Reinsert(seq(|t'|, _ => EMPTY), es).table
  }

  /** Compare-and-swap on the lock byte, the seqlock begin and end, and the writes between them. */
  ghost predicate WriterStep(s: State, s': State, t: Tid)
    requires s.Shaped() && t in s.threads
  {
    var th := s.threads[t];
    || (th.Idle? && s.lock.None? && Moves(s, s', t, Locked, s.Now(), s.sequence, s.total, Some(t)))
    || (th.Locked? && Stays(s, s', t, Beginning(s.sequence)))
    || (th.Beginning? && t in s'.threads && s'.threads[t].Writing? && Outcome(s.Now(), s'.threads[t].goal)
        && Moves(s, s', t, s'.threads[t], s.Now(), (th.loaded + 1) % SEQ_SPAN, s.total + 1, s.lock))
    || (th.Writing? && exists v: Version :: Written(s.Now(), v) && Moves(s, s', t, th, v, s.sequence, s.total, s.lock))
    || (th.Writing? && s.Now() == th.goal && Stays(s, s', t, Ending(s.sequence)))
    || (th.Ending? && Moves(s, s', t, Ended, s.Now(), (th.loaded + 1) % SEQ_SPAN, s.total + 1, s.lock))
    || (th.Ended? && Moves(s, s', t, Idle, s.Now(), s.sequence, s.total, None))
    || (th.Idle? && s.lock.None? && Moves(s, s', t, Holding, s.Now(), s.sequence, s.total, Some(t)))
    || (th.Holding? && Moves(s, s', t, Idle, s.Now(), s.sequence, s.total, None))
  }

  /** A writer stores one word, or binds another capacity or base. */
  ghost predicate Written(v: Version, v': Version) {
    || (v'.capacity == v.capacity && v'.base == v.base && exists j: nat, w: Word :: WordStored(v, v', j, w))
    || (v'.words == v.words && 2 * v'.capacity <= |v.words|)
  }

  ghost predicate WordStored(v: Version, v': Version, j: nat, w: Word) {
    j < |v.words| && v'.words == v.words[j := w]
  }

  ghost predicate ReaderStep(s: State, s': State, t: Tid)
    requires s.Shaped() && t in s.threads
  {
    var th := s.threads[t];
    var now := |s.versions| - 1;
    match th
    case Idle =>
      exists key: Word :: Stays(s, s', t, Called(key, now))
    case Called(key, began) =>
      if s.sequence % 2 == 1 then Stays(s, s', t, th)
      else Stays(s, s', t, Sampled(Sample(key, began, s.sequence, now, s.total)))
    case Sampled(sample) =>
      if s.Now().capacity == 0 then Stays(s, s', t, Called(sample.key, sample.began))
      else Stays(s, s', t, LoadSlot(sample, s.Now().capacity, Home(s.Now().capacity, sample.key)))
    case LoadSlot(sample, n, i) =>
      if n == 0 || i >= Home(n, sample.key) + n then Stays(s, s', t, Checking(sample, None))
      else
        var j := 2 * Wrap(n, i) + 1;
        j < |s.Now().words| && Stays(s, s', t, LoadKey(sample, n, i, s.Now().words[j]))
    case LoadKey(sample, n, i, slot) =>
      n > 0 && i < 2 * n &&
      var j := 2 * Wrap(n, i);
      j < |s.Now().words| && Stays(s, s', t, TestEmpty(sample, n, i, slot, s.Now().words[j]))
    case TestEmpty(sample, n, i, slot, found) =>
      n > 0 && i < 2 * n &&
      var j := 2 * Wrap(n, i) + 1;
      j < |s.Now().words| &&
      if s.Now().words[j] == 0 then Stays(s, s', t, Checking(sample, None))
      else if found == sample.key then Stays(s, s', t, Checking(sample, Some(Entry(found, slot))))
      else Stays(s, s', t, LoadSlot(sample, n, i + 1))
    case Checking(sample, result) =>
      if s.sequence == sample.seq1 && s.sequence % 2 == 0 then Stays(s, s', t, Accepted(sample, result))
      else Stays(s, s', t, Called(sample.key, sample.began))
    case Accepted(sample, result) =>
      if result.None? then Stays(s, s', t, Idle) else Stays(s, s', t, Converted(sample, result.value, now))
    case Converted(_, _, _) =>
      Stays(s, s', t, Idle)
    case _ => false
  }

  ghost predicate Next(s: State, s': State) {
    s.Shaped() && exists t: Tid :: t in s.threads && (WriterStep(s, s', t) || ReaderStep(s, s', t))
  }

  ghost predicate Init(s: State) {
    && |s.versions| == 1 && s.Now().WellFormed()
    && s.sequence == 0 && s.total == 0 && s.lock.None?
    && forall t: Tid :: t in s.threads ==> s.threads[t].Idle?
  }

  // ---------- The invariant ----------

  predicate HoldsLock(th: Thread) {
    th.Locked? || th.Beginning? || th.Writing? || th.Ending? || th.Ended? || th.Holding?
  }

  predicate MakesOdd(th: Thread) {
    th.Writing? || th.Ending?
  }

  ghost predicate LockOk(s: State) {
    && (forall t: Tid :: t in s.threads && HoldsLock(s.threads[t]) ==> s.lock == Some(t))
    && (s.lock.Some? ==> s.lock.value in s.threads && HoldsLock(s.threads[s.lock.value]))
  }

  ghost predicate SequenceOk(s: State) {
    s.sequence == s.total % SEQ_SPAN && ParityOk(s) && LoadedOk(s)
  }

  ghost predicate ParityOk(s: State) {
    s.total % 2 == 1 <==> s.lock.Some? && s.lock.value in s.threads && MakesOdd(s.threads[s.lock.value])
  }

  ghost predicate LoadedOk(s: State) {
    forall t: Tid :: t in s.threads && (s.threads[t].Beginning? || s.threads[t].Ending?) ==>
      s.threads[t].loaded == s.sequence
  }

  ghost predicate TableOk(s: State)
    requires s.Shaped()
  {
    && (forall i: nat :: i < |s.versions| ==> s.versions[i].Fits() && |s.versions[i].words| == |s.versions[0].words|)
    && (s.total % 2 == 0 ==> s.Now().WellFormed())
    && (forall t: Tid :: t in s.threads && s.threads[t].Writing? ==> s.threads[t].goal.WellFormed())
    && (forall t: Tid :: t in s.threads && s.threads[t].Ending? ==> s.Now().WellFormed())
  }

  /** What a reader sampled: an even sequence and the well-formed table that was current then. */
  ghost predicate SampleOk(s: State, c: Sample) {
    && c.began <= c.at < |s.versions|
    && c.total <= s.total && c.total % 2 == 0 && c.seq1 == c.total % SEQ_SPAN
    && s.versions[c.at].WellFormed()
    && (s.total == c.total ==> s.versions[|s.versions| - 1] == s.versions[c.at])
  }

  ghost predicate Fresh(s: State, c: Sample) {
    s.total == c.total
  }

  /** The rest of the probe on the sampled table gives the answer of that table. */
  ghost predicate ProbeAt(v: Version, key: Word, n: nat, i: nat)
    requires v.Fits()
  {
    && n == v.capacity && n > 0
    && Home(n, key) <= i <= Home(n, key) + n
    && FindFrom(v.Buckets(), key, i) == Find(v.Buckets(), key)
  }

  ghost predicate Answer(v: Version, key: Word, result: Option<Entry>)
    requires v.Fits()
  {
    v.capacity > 0 && result == Find(v.Buckets(), key)
  }

  ghost predicate InRange(s: State, n: nat, i: nat)
    requires s.Shaped()
  {
    n > 0 && i < 2 * n && 2 * n <= |s.versions[0].words|
  }

  ghost predicate ReaderOk(s: State, th: Thread)
    requires s.Shaped()
  {
    match th
    case Called(_, began) => began < |s.versions|
    case Sampled(c) => SampleOk(s, c)
    case LoadSlot(c, n, i) =>
      && SampleOk(s, c) && n > 0 && 2 * n <= |s.versions[0].words| && Home(n, c.key) <= i <= Home(n, c.key) + n
      && (Fresh(s, c) ==> ProbeAt(s.versions[c.at], c.key, n, i))
    case LoadKey(c, n, i, slot) =>
      && SampleOk(s, c) && InRange(s, n, i) && Home(n, c.key) <= i < Home(n, c.key) + n
      && (Fresh(s, c) ==> && ProbeAt(s.versions[c.at], c.key, n, i)
                          && slot == s.versions[c.at].Buckets()[Wrap(n, i)].slot)
    case TestEmpty(c, n, i, slot, found) =>
      && SampleOk(s, c) && InRange(s, n, i) && Home(n, c.key) <= i < Home(n, c.key) + n
      && (Fresh(s, c) ==> && ProbeAt(s.versions[c.at], c.key, n, i)
                          && Entry(found, slot) == s.versions[c.at].Buckets()[Wrap(n, i)])
    case Checking(c, result) =>
      SampleOk(s, c) && (Fresh(s, c) ==> Answer(s.versions[c.at], c.key, result))
    case Accepted(c, result) =>
      SampleOk(s, c) && Answer(s.versions[c.at], c.key, result)
    case Converted(c, found, seen) =>
      SampleOk(s, c) && Answer(s.versions[c.at], c.key, Some(found)) && c.at <= seen < |s.versions|
    case _ => true
  }

  ghost predicate Inv(s: State) {
    && s.Shaped() && LockOk(s) && SequenceOk(s) && TableOk(s)
    && forall t: Tid :: t in s.threads ==> ReaderOk(s, s.threads[t])
  }

  /** No read is still running after 2^32 increments of the sequence. */
  ghost predicate NoLap(s: State) {
    forall t: Tid :: t in s.threads && s.threads[t].Checking? ==> s.total < s.threads[t].s.total + SEQ_SPAN
  }

  // ---------- Every step keeps it ----------

  /** How any step changes what readers depend on: the table changes only while the sequence is odd. */
  ghost predicate Evolves(s: State, s': State)
    requires s.Shaped()
  {
    && s'.Shaped() && s'.versions == s.versions + [s'.Now()]
    && s'.Now().Fits() && |s'.Now().words| == |s.Now().words|
    && s.total <= s'.total
    && (s'.total == s.total ==> s'.Now() == s.Now() || s.total % 2 == 1)
  }

  lemma SampleStays(s: State, s': State, c: Sample)
    requires s.Shaped() && Evolves(s, s') && SampleOk(s, c)
    ensures SampleOk(s', c) && s'.versions[c.at] == s.versions[c.at]
  {
  }

  lemma ReaderStays(s: State, s': State, th: Thread)
    requires s.Shaped() && Evolves(s, s') && ReaderOk(s, th)
    ensures ReaderOk(s', th)
  {
    assert s'.versions[0] == s.versions[0];
    match th
    case Sampled(c) => SampleStays(s, s', c);
    case LoadSlot(c, _, _) => SampleStays(s, s', c);
    case LoadKey(c, _, _, _) => SampleStays(s, s', c);
    case TestEmpty(c, _, _, _, _) => SampleStays(s, s', c);
    case Checking(c, _) => SampleStays(s, s', c);
    case Accepted(c, _) => SampleStays(s, s', c);
    case Converted(c, _, _) => SampleStays(s, s', c);
    case _ =>
  }

  lemma {:induction false} ReinsertKeepsOrder(t: seq<Entry>, es: seq<Entry>)
    requires |t| > 0 && RobinHood.WellFormed(t) && forall i: nat :: i < |es| ==> !Empty(es[i])
    ensures RobinHood.WellFormed(Rebuild.Reinsert(t, es).table)
  {
    if es != [] {
      var u, e := es[..|es| - 1], es[|es| - 1];
      ReinsertKeepsOrder(t, u);
      RobinHoodPut.PutKeepsOrder(Rebuild.Reinsert(t, u).table, e.key, e.slot);
    }
  }

  /** Whatever a write section carries out, and whether it succeeds or not, the table that it ends with is ordered. */
  lemma OutcomeIsWellFormed(v: Version, v': Version)
    requires v.WellFormed() && Outcome(v, v')
    ensures v'.WellFormed()
  {
    var t, t' := v.Buckets(), v'.Buckets();
    if v'.capacity == v.capacity && t' == t {
    } else if v'.capacity == v.capacity && Rebuild.AllEmpty(t') {
      Rebuild.AllEmptyFacts(t');
    } else if key: Word, slot: Word :| Inserted(t, t', key, slot) {
      RobinHoodPut.PutKeepsOrder(t, key, slot);
    } else if key: Word :| |t| > 0 && RobinHoodRemove.Remove(t, key) == Some(t') {
      RobinHoodRemove.RemoveCorrect(t, key);
    } else {
      var es :| Rehashed(t, t', es);
      var blank := seq(|t'|, _ => EMPTY);
      Rebuild.AllEmptyFacts(blank);
      ReinsertKeepsOrder(blank, es);
    }
  }

  lemma WriterEvolves(s: State, s': State, t: Tid)
    requires Inv(s) && t in s.threads && WriterStep(s, s', t)
    ensures Evolves(s, s') && ReaderOk(s', s'.threads[t])
    ensures s'.threads == s.threads[t := s'.threads[t]]
  {
    assert s.Now().Fits();
  }

  lemma WriterKeepsLock(s: State, s': State, t: Tid)
    requires Inv(s) && t in s.threads && WriterStep(s, s', t)
    ensures LockOk(s')
  {
  }

  lemma OneMoreCount(total: nat)
    ensures (total % SEQ_SPAN + 1) % SEQ_SPAN == (total + 1) % SEQ_SPAN
  {
  }

  lemma WriterKeepsParity(s: State, s': State, t: Tid)
    requires Inv(s) && t in s.threads && WriterStep(s, s', t)
    ensures ParityOk(s')
  {
    assert HoldsLock(s.threads[t]) ==> s.lock == Some(t);
  }

  lemma WriterKeepsLoaded(s: State, s': State, t: Tid)
    requires Inv(s) && t in s.threads && WriterStep(s, s', t)
    ensures LoadedOk(s')
  {
    assert HoldsLock(s.threads[t]) ==> s.lock == Some(t);
  }

  lemma WriterKeepsSequence(s: State, s': State, t: Tid)
    requires Inv(s) && t in s.threads && WriterStep(s, s', t)
    ensures SequenceOk(s')
  {
    OneMoreCount(s.total);
    WriterKeepsParity(s, s', t);
    WriterKeepsLoaded(s, s', t);
  }

  lemma WriterKeepsTable(s: State, s': State, t: Tid)
    requires Inv(s) && t in s.threads && WriterStep(s, s', t)
    ensures s'.Shaped() && TableOk(s')
  {
    WriterEvolves(s, s', t);
    if s.threads[t].Beginning? {
      OutcomeIsWellFormed(s.Now(), s'.threads[t].goal);
    }
  }

  lemma WriterKeeps(s: State, s': State, t: Tid)
    requires Inv(s) && t in s.threads && WriterStep(s, s', t)
    ensures Inv(s')
  {
    WriterEvolves(s, s', t);
    WriterKeepsLock(s, s', t);
    WriterKeepsSequence(s, s', t);
    WriterKeepsTable(s, s', t);
    forall u: Tid | u in s'.threads
      ensures ReaderOk(s', s'.threads[u])
    {
      if u != t {
        ReaderStays(s, s', s.threads[u]);
      }
    }
  }

  lemma ReaderEvolves(s: State, s': State, t: Tid)
    requires Inv(s) && t in s.threads && ReaderStep(s, s', t)
    ensures Evolves(s, s') && s'.Now() == s.Now() && s'.total == s.total && s'.sequence == s.sequence
      && s'.lock == s.lock
    ensures s'.threads == s.threads[t := s'.threads[t]]
    ensures !HoldsLock(s.threads[t]) && !HoldsLock(s'.threads[t])
  {
    assert s.Now().Fits();
  }

  /** On the sampled table, one more bucket of the probe. */
  lemma ProbeOne(v: Version, key: Word, n: nat, i: nat)
    requires v.Fits() && ProbeAt(v, key, n, i) && i < Home(n, key) + n
    ensures var e := v.Buckets()[Wrap(n, i)];
      && e == Entry(v.words[2 * Wrap(n, i)], v.words[2 * Wrap(n, i) + 1])
      && (Empty(e) ==> Answer(v, key, None))
      && (!Empty(e) && e.key == key ==> Answer(v, key, Some(e)))
      && (!Empty(e) && e.key != key ==> ProbeAt(v, key, n, i + 1))
  {
  }

  lemma SamplingStep(s: State, s': State, t: Tid)
    requires Inv(s) && t in s.threads && ReaderStep(s, s', t)
    requires s.threads[t].Called? || s.threads[t].Sampled?
    ensures s'.Shaped() && t in s'.threads && ReaderOk(s', s'.threads[t])
  {
    ReaderEvolves(s, s', t);
    assert s'.versions[0] == s.versions[0] && s.Now().Fits();
    if s.threads[t].Sampled? {
      SampleStays(s, s', s.threads[t].s);
    }
  }

  lemma SlotStep(s: State, s': State, t: Tid)
    requires Inv(s) && t in s.threads && ReaderStep(s, s', t) && s.threads[t].LoadSlot?
    ensures s'.Shaped() && t in s'.threads && ReaderOk(s', s'.threads[t])
  {
    ReaderEvolves(s, s', t);
    assert s'.versions[0] == s.versions[0] && s.Now().Fits();
    var LoadSlot(c, n, i) := s.threads[t];
    SampleStays(s, s', c);
    if Fresh(s, c) && i < Home(n, c.key) + n {
      ProbeOne(s.Now(), c.key, n, i);
    }
  }

  lemma KeyStep(s: State, s': State, t: Tid)
    requires Inv(s) && t in s.threads && ReaderStep(s, s', t) && s.threads[t].LoadKey?
    ensures s'.Shaped() && t in s'.threads && ReaderOk(s', s'.threads[t])
  {
    ReaderEvolves(s, s', t);
    assert s'.versions[0] == s.versions[0] && s.Now().Fits();
    var LoadKey(c, n, i, slot) := s.threads[t];
    SampleStays(s, s', c);
    if Fresh(s, c) {
      ProbeOne(s.Now(), c.key, n, i);
    }
  }

  lemma TestStep(s: State, s': State, t: Tid)
    requires Inv(s) && t in s.threads && ReaderStep(s, s', t) && s.threads[t].TestEmpty?
    ensures s'.Shaped() && t in s'.threads && ReaderOk(s', s'.threads[t])
  {
    ReaderEvolves(s, s', t);
    assert s'.versions[0] == s.versions[0] && s.Now().Fits();
    var TestEmpty(c, n, i, slot, found) := s.threads[t];
    SampleStays(s, s', c);
    if Fresh(s, c) {
      ProbeOne(s.Now(), c.key, n, i);
    }
  }

  lemma CheckStep(s: State, s': State, t: Tid)
    requires Inv(s) && NoLap(s) && t in s.threads && ReaderStep(s, s', t) && s.threads[t].Checking?
    ensures s'.Shaped() && t in s'.threads && ReaderOk(s', s'.threads[t])
  {
    ReaderEvolves(s, s', t);
    var Checking(c, result) := s.threads[t];
    SampleStays(s, s', c);
    assert s.sequence == c.seq1 ==> s.total == c.total;
  }

  lemma AcceptStep(s: State, s': State, t: Tid)
    requires Inv(s) && t in s.threads && ReaderStep(s, s', t) && s.threads[t].Accepted?
    ensures s'.Shaped() && t in s'.threads && ReaderOk(s', s'.threads[t])
  {
    ReaderEvolves(s, s', t);
    SampleStays(s, s', s.threads[t].s);
  }

  lemma ReaderOwnStep(s: State, s': State, t: Tid)
    requires Inv(s) && NoLap(s) && t in s.threads && ReaderStep(s, s', t)
    ensures s'.Shaped() && t in s'.threads && ReaderOk(s', s'.threads[t])
  {
    match s.threads[t]
    case Called(_, _) => SamplingStep(s, s', t);
    case Sampled(_) => SamplingStep(s, s', t);
    case LoadSlot(_, _, _) => SlotStep(s, s', t);
    case LoadKey(_, _, _, _) => KeyStep(s, s', t);
    case TestEmpty(_, _, _, _, _) => TestStep(s, s', t);
    case Checking(_, _) => CheckStep(s, s', t);
    case Accepted(_, _) => AcceptStep(s, s', t);
    case _ =>
  }

  lemma ReaderKeeps(s: State, s': State, t: Tid)
    requires Inv(s) && NoLap(s) && t in s.threads && ReaderStep(s, s', t)
    ensures Inv(s')
  {
    ReaderEvolves(s, s', t);
    ReaderOwnStep(s, s', t);
    forall u: Tid | u in s'.threads
      ensures ReaderOk(s', s'.threads[u])
    {
      if u != t {
        ReaderStays(s, s', s.threads[u]);
      }
    }
  }

  /** Every step of every thread keeps the invariant. */
  lemma NextKeeps(s: State, s': State)
    requires Inv(s) && NoLap(s) && Next(s, s')
    ensures Inv(s')
  {
    var t: Tid :| t in s.threads && (WriterStep(s, s', t) || ReaderStep(s, s', t));
    if WriterStep(s, s', t) {
      WriterKeeps(s, s', t);
    } else {
      ReaderKeeps(s, s', t);
    }
  }

  // ---------- Runs ----------

  /** A run of any length and any interleaving, in which no read is overtaken by 2^32 increments. */
  ghost predicate Run(trace: seq<State>) {
    && trace != [] && Init(trace[0])
    && (forall i: nat :: i + 1 < |trace| ==> Follows(trace, i))
    && (forall i: nat :: i < |trace| ==> NoLap(trace[i]))
  }

  ghost predicate Follows(trace: seq<State>, i: nat)
    requires i + 1 < |trace|
  {
    Next(trace[i], trace[i + 1])
  }

  lemma InitHolds(s: State)
    requires Init(s)
    ensures Inv(s) && |s.versions| == 1
  {
  }

  /** One more version in the history. */
  ghost predicate Appends(s: State, s': State) {
    |s'.versions| == |s.versions| + 1 && s'.versions[..|s.versions|] == s.versions
  }

  lemma Along(s: State, s': State)
    requires Inv(s) && NoLap(s) && Next(s, s')
    ensures Inv(s') && Appends(s, s')
  {
    NextKeeps(s, s');
    NextAppends(s, s');
  }

  lemma RunFollows(trace: seq<State>, i: nat)
    requires Run(trace) && i + 1 < |trace| && Inv(trace[i])
    ensures Inv(trace[i + 1]) && Appends(trace[i], trace[i + 1])
  {
    assert Follows(trace, i);
    Along(trace[i], trace[i + 1]);
  }

  /** Every state of every run satisfies the invariant. */
  lemma {:induction false} RunKeeps(trace: seq<State>, i: nat)
    requires Run(trace) && i < |trace|
    ensures Inv(trace[i])
  {
    if i == 0 {
      InitHolds(trace[0]);
    } else {
      RunKeeps(trace, i - 1);
      RunFollows(trace, i - 1);
    }
  }

  /** The history of versions is one version a state. */
  ghost predicate Recorded(trace: seq<State>, i: nat, j: nat)
    requires j <= i < |trace|
  {
    && trace[j].Shaped() && |trace[i].versions| == i + 1
    && trace[j].Now() == trace[i].versions[j]
  }

  lemma {:induction false} RunRecords(trace: seq<State>, i: nat, j: nat)
    requires Run(trace) && j <= i < |trace|
    ensures Recorded(trace, i, j)
    decreases i
  {
    if i == 0 {
      InitHolds(trace[0]);
    } else {
      RunRecords(trace, i - 1, if j < i then j else j - 1);
      RunKeeps(trace, i - 1);
      RunFollows(trace, i - 1);
    }
  }

  lemma NextAppends(s: State, s': State)
    requires Inv(s) && Next(s, s')
    ensures Appends(s, s')
  {
    var t: Tid :| t in s.threads && (WriterStep(s, s', t) || ReaderStep(s, s', t));
    if WriterStep(s, s', t) {
      WriterEvolves(s, s', t);
    } else {
      ReaderEvolves(s, s', t);
    }
  }

  /**
   Every accepted read is linearizable: its answer, hit or miss, is the answer of the map that one well-formed
   table version stood for, the version that was current when the reader sampled the sequence, which lies
   between its call and its return.
   */
  lemma AcceptedReadsAreLinearizable(trace: seq<State>, i: nat, t: Tid)
    requires Run(trace) && i < |trace| && t in trace[i].threads && trace[i].threads[t].Accepted?
    ensures var Accepted(c, result) := trace[i].threads[t];
      && c.began <= c.at <= i && trace[c.at].Shaped() && trace[c.at].Now().WellFormed()
      && var m := Contents(trace[c.at].Now().Buckets());
         result == if c.key in m then Some(Entry(c.key, m[c.key])) else None
  {
    RunKeeps(trace, i);
    var Accepted(c, result) := trace[i].threads[t];
    RunRecords(trace, i, i);
    RunRecords(trace, i, c.at);
    assert ReaderOk(trace[i], trace[i].threads[t]);
    FindCorrect(trace[i].versions[c.at].Buckets(), c.key);
  }

  /**
   The slot id that `ef_index_get` returns. The offset is from the sampled version, but the base that it is converted
   with is read after the sequence has been checked: the id is that of the map if and only if the base is the same.
   */
  lemma ReturnedIds(trace: seq<State>, i: nat, t: Tid, maxSlots: nat)
    requires Run(trace) && i < |trace| && t in trace[i].threads && trace[i].threads[t].Converted?
    ensures var Converted(c, found, seen) := trace[i].threads[t];
      && c.began <= c.at <= seen <= i && trace[c.at].Shaped() && trace[seen].Shaped()
      && trace[c.at].Now().WellFormed()
      && var m, base := Contents(trace[c.at].Now().Buckets()), trace[seen].Now().base;
         var id := Rebuild.Names(trace[c.at].Now().base, maxSlots, found.slot);
         && c.key in m && found == Entry(c.key, m[c.key])
         && (id.Some? ==> (Rebuild.Names(base, maxSlots, found.slot) == id <==> base == trace[c.at].Now().base))
  {
    RunKeeps(trace, i);
    var Converted(c, found, seen) := trace[i].threads[t];
    RunRecords(trace, i, i);
    RunRecords(trace, i, c.at);
    RunRecords(trace, i, seen);
    assert ReaderOk(trace[i], trace[i].threads[t]);
    FindCorrect(trace[i].versions[c.at].Buckets(), c.key);
  }

  /** A shrink from 32 to 16 buckets in between: offset 640 is that of slot 1, and is taken for slot 5. */
  lemma StaleBaseWitness(maxSlots: nat)
    requires maxSlots > 5
    ensures Rebuild.Names(Rebuild.SlotsBase(32), maxSlots, 640) == Some(1)
    ensures Rebuild.Names(Rebuild.SlotsBase(16), maxSlots, 640) == Some(5)
  {
  }

  /** At every moment of every run at most one thread is inside a write section. */
  lemma OneWriter(trace: seq<State>, i: nat, t: Tid, u: Tid)
    requires Run(trace) && i < |trace| && t in trace[i].threads && u in trace[i].threads
    requires HoldsLock(trace[i].threads[t]) && HoldsLock(trace[i].threads[u])
    ensures t == u
  {
    RunKeeps(trace, i);
  }

  // ---------- Threads alone ----------

  ghost predicate StepsOn(t: Tid, s: State, s': State) {
    s.Shaped() && t in s.threads && (WriterStep(s, s', t) || ReaderStep(s, s', t))
  }

  /** A run of thread `t` without steps of others. */
  ghost predicate Alone(t: Tid, run: seq<State>) {
    run != [] && forall i: nat :: i + 1 < |run| ==> StepsOn(t, run[i], run[i + 1])
  }

  lemma AloneJoin(t: Tid, a: seq<State>, b: seq<State>)
    requires Alone(t, a) && Alone(t, b) && StepsOn(t, a[|a| - 1], b[0])
    ensures Alone(t, a + b) && (a + b)[|a| + |b| - 1] == b[|b| - 1] && (a + b)[0] == a[0]
  {
    var c := a + b;
    forall i: nat | i + 1 < |c| ensures StepsOn(t, c[i], c[i + 1]) {
      if i + 1 < |a| {
        assert StepsOn(t, a[i], a[i + 1]);
      } else if i >= |a| {
        assert StepsOn(t, b[i - |a|], b[i + 1 - |a|]);
      }
    }
  }

  ghost function At(s: State, t: Tid, th: Thread): State
    requires s.Shaped()
  {
    State(s.versions + [s.Now()], s.sequence, s.total, s.lock, s.threads[t := th])
  }

  /** Nothing but the thread has changed. */
  ghost predicate Same(s: State, s': State, t: Tid, th: Thread) {
    && s.Shaped() && s'.Shaped() && s'.Now() == s.Now() && s'.sequence == s.sequence && s'.total == s.total
    && s'.lock == s.lock && s'.threads == s.threads[t := th]
  }

  /** One bucket of a probe alone. */
  lemma BucketAlone(s: State, t: Tid, c: Sample, n: nat, i: nat) returns (run: seq<State>)
    requires s.Shaped() && t in s.threads && s.threads[t] == LoadSlot(c, n, i)
    requires s.Now().Fits() && ProbeAt(s.Now(), c.key, n, i) && i < Home(n, c.key) + n
    ensures Alone(t, run) && run[0] == s
    ensures var e := s.Now().Buckets()[Wrap(n, i)];
      Same(s, run[|run| - 1], t, if Empty(e) then Checking(c, None) else if e.key == c.key then Checking(c, Some(e))
                                 else LoadSlot(c, n, i + 1))
  {
    var v := s.Now();
    var e := v.Buckets()[Wrap(n, i)];
    ProbeOne(v, c.key, n, i);
    var s1 := At(s, t, LoadKey(c, n, i, e.slot));
    var s2 := At(s1, t, TestEmpty(c, n, i, e.slot, e.key));
    var s3 := At(s2, t, if Empty(e) then Checking(c, None) else if e.key == c.key then Checking(c, Some(e))
                        else LoadSlot(c, n, i + 1));
    run := [s, s1, s2, s3];
    assert StepsOn(t, s, s1);
    assert s1.Now() == v && StepsOn(t, s1, s2);
    assert s2.Now() == v && StepsOn(t, s2, s3);
  }

  lemma {:induction false} ProbeAlone(s: State, t: Tid, c: Sample, n: nat, i: nat) returns (run: seq<State>)
    requires s.Shaped() && t in s.threads && s.threads[t] == LoadSlot(c, n, i)
    requires s.Now().Fits() && ProbeAt(s.Now(), c.key, n, i)
    ensures Alone(t, run) && run[0] == s
    ensures Same(s, run[|run| - 1], t, Checking(c, Find(s.Now().Buckets(), c.key)))
    decreases Home(n, c.key) + n - i
  {
    if i == Home(n, c.key) + n {
      run := [s, At(s, t, Checking(c, None))];
      assert StepsOn(t, run[0], run[1]);
    } else {
      ProbeOne(s.Now(), c.key, n, i);
      run := BucketAlone(s, t, c, n, i);
      var s' := run[|run| - 1];
      if s'.threads[t].LoadSlot? {
        var rest := ProbeAlone(s', t, c, n, i + 1);
        AloneJoinAt(t, run, rest);
        run := run + rest[1..];
        assert s'.threads[t := rest[|rest| - 1].threads[t]] == s.threads[t := rest[|rest| - 1].threads[t]];
      }
    }
  }

  lemma AloneJoinAt(t: Tid, a: seq<State>, b: seq<State>)
    requires Alone(t, a) && Alone(t, b) && a[|a| - 1] == b[0]
    ensures Alone(t, a + b[1..]) && (a + b[1..])[0] == a[0]
    ensures (a + b[1..])[|a| + |b| - 2] == b[|b| - 1]
  {
    if |b| == 1 {
      assert a + b[1..] == a;
    } else {
      assert StepsOn(t, b[0], b[1]);
      forall i: nat | i + 1 < |b[1..]| ensures StepsOn(t, b[1..][i], b[1..][i + 1]) {
        assert StepsOn(t, b[i + 1], b[i + 2]);
      }
      AloneJoin(t, a, b[1..]);
    }
  }

  lemma SampleAlone(s: State, t: Tid, key: Word) returns (run: seq<State>)
    requires s.Shaped() && s.sequence % 2 == 0 && t in s.threads && s.threads[t].Idle? && s.Now().capacity > 0
    ensures Alone(t, run) && run[0] == s
    ensures var c := Sample(key, |s.versions| - 1, s.sequence, |s.versions|, s.total);
      Same(s, run[|run| - 1], t, LoadSlot(c, s.Now().capacity, Home(s.Now().capacity, key)))
  {
    var now := |s.versions| - 1;
    var n := s.Now().capacity;
    var c := Sample(key, now, s.sequence, now + 1, s.total);
    var s1 := At(s, t, Called(key, now));
    var s2 := At(s1, t, Sampled(c));
    var s3 := At(s2, t, LoadSlot(c, n, Home(n, key)));
    assert Stays(s, s1, t, Called(key, now)) && ReaderStep(s, s1, t);
    assert StepsOn(t, s, s1) && s1.Now() == s.Now();
    assert StepsOn(t, s1, s2) && s2.Now() == s.Now();
    assert StepsOn(t, s2, s3) && s3.Now() == s.Now();
    run := [s, s1, s2, s3];
  }

  lemma AcceptAlone(s: State, t: Tid, c: Sample, result: Option<Entry>) returns (run: seq<State>)
    requires s.Shaped() && t in s.threads && s.threads[t] == Checking(c, result)
    requires c.seq1 == s.sequence && s.sequence % 2 == 0
    ensures Alone(t, run) && run[0] == s && Same(s, run[|run| - 1], t, Accepted(c, result))
  {
    run := [s, At(s, t, Accepted(c, result))];
    assert StepsOn(t, run[0], run[1]);
  }

  lemma SameTwice(s: State, s': State, s'': State, t: Tid, a: Thread, b: Thread)
    requires Same(s, s', t, a) && Same(s', s'', t, b)
    ensures Same(s, s'', t, b)
  {
  }

  /** A read that no writer disturbs is accepted, with the answer of the map. */
  lemma ReadAlone(s: State, t: Tid, key: Word) returns (run: seq<State>)
    requires Inv(s) && s.total % 2 == 0 && t in s.threads && s.threads[t].Idle? && s.Now().capacity > 0
    ensures Alone(t, run) && run[0] == s
    ensures var c := Sample(key, |s.versions| - 1, s.sequence, |s.versions|, s.total);
      var m := Contents(s.Now().Buckets());
      Same(s, run[|run| - 1], t, Accepted(c, if key in m then Some(Entry(key, m[key])) else None))
  {
    var v, n := s.Now(), s.Now().capacity;
    var c := Sample(key, |s.versions| - 1, s.sequence, |s.versions|, s.total);
    var i := Home(n, key);
    EvenCount(s.total);
    var a := SampleAlone(s, t, key);
    var s1 := a[|a| - 1];
    var b := ProbeAlone(s1, t, c, n, i);
    var s2 := b[|b| - 1];
    var d := AcceptAlone(s2, t, c, Find(v.Buckets(), key));
    AloneJoinAt(t, a, b);
    AloneJoinAt(t, a + b[1..], d);
    run := a + b[1..] + d[1..];
    SameTwice(s, s1, s2, t, LoadSlot(c, n, i), s2.threads[t]);
    SameTwice(s, s2, d[|d| - 1], t, s2.threads[t], d[|d| - 1].threads[t]);
    FindCorrect(v.Buckets(), key);
  }

  lemma EvenCount(total: nat)
    requires total % 2 == 0
    ensures total % SEQ_SPAN % 2 == 0
  {
  }

  /** Whatever a call makes of the table under the write lock is an outcome of a write section. */
  lemma CallsAreOutcomes(v: Version, v': Version, key: Word, slot: Word, es: seq<Entry>)
    requires v.Fits() && v'.Fits() && |v'.words| == |v.words|
    ensures v' == v ==> Outcome(v, v')
    ensures v'.capacity == v.capacity && v'.base == v.base ==>
      var t, t' := v.Buckets(), v'.Buckets();
      && (Rebuild.AllEmpty(t') ==> Outcome(v, v'))
      && (t != [] && slot != 0 && t' == RobinHoodPut.Put(t, key, slot).table ==> Outcome(v, v'))
      && (t != [] && RobinHoodRemove.Remove(t, key) == Some(t') ==> Outcome(v, v'))
    ensures v'.base == 64 + 16 * v'.capacity && Rehashed(v.Buckets(), v'.Buckets(), es) ==>
      Outcome(v, v')
  {
    var t, t' := v.Buckets(), v'.Buckets();
    if t != [] && slot != 0 && t' == RobinHoodPut.Put(t, key, slot).table {
      assert Inserted(t, t', key, slot);
    }
  }

  /** The words of `goal`, stored one after the other. */
  lemma {:induction false} StoreAlone(s: State, t: Tid, goal: Version, j: nat) returns (run: seq<State>)
    requires s.Shaped() && t in s.threads && s.threads[t] == Writing(goal) && j <= |goal.words| == |s.Now().words|
    requires forall k: nat :: j <= k < |goal.words| ==> s.Now().words[k] == goal.words[k]
    ensures Alone(t, run) && run[0] == s
    ensures var s' := run[|run| - 1];
      && s'.Shaped() && s'.Now() == s.Now().(words := goal.words) && s'.total == s.total && s'.lock == s.lock
      && s'.sequence == s.sequence && s'.threads == s.threads
    decreases j
  {
    if j == 0 {
      run := [s];
      assert s.Now().words == goal.words;
    } else {
      var v := s.Now().(words := s.Now().words[j - 1 := goal.words[j - 1]]);
      var s1 := State(s.versions + [v], s.sequence, s.total, s.lock, s.threads[t := s.threads[t]]);
      assert WordStored(s.Now(), v, j - 1, goal.words[j - 1]) && Written(s.Now(), v);
      assert StepsOn(t, s, s1);
      assert s1.Now() == v && s1.threads == s.threads;
      var rest := StoreAlone(s1, t, goal, j - 1);
      AloneJoin(t, [s], rest);
      run := [s] + rest;
    }
  }

  lemma EndAlone(s: State, t: Tid, goal: Version) returns (run: seq<State>)
    requires s.Shaped() && t in s.threads && s.threads[t] == Writing(goal) && goal.Fits()
    requires s.Now() == s.Now().(words := goal.words)
    ensures Alone(t, run) && run[0] == s
    ensures var s' := run[|run| - 1];
      && s'.Shaped() && s'.Now() == goal && s'.total == s.total + 1 && s'.lock.None?
      && s'.threads == s.threads[t := Idle] && s'.sequence == (s.sequence + 1) % SEQ_SPAN
  {
    var s1 := State(s.versions + [goal], s.sequence, s.total, s.lock, s.threads[t := s.threads[t]]);
    assert Written(s.Now(), goal);
    assert StepsOn(t, s, s1) && s1.Now() == goal;
    var s2 := At(s1, t, Ending(s.sequence));
    assert StepsOn(t, s1, s2) && s2.Now() == goal;
    var s3 := At(s2, t, Ended).(sequence := (s.sequence + 1) % SEQ_SPAN, total := s.total + 1);
    assert StepsOn(t, s2, s3) && s3.Now() == goal;
    var s4 := At(s3, t, Idle).(lock := None);
    assert StepsOn(t, s3, s4) && s4.Now() == goal;
    run := [s, s1, s2, s3, s4];
  }

  lemma BeginAlone(s: State, t: Tid, goal: Version) returns (run: seq<State>)
    requires s.Shaped() && t in s.threads && s.threads[t].Idle? && s.lock.None? && Outcome(s.Now(), goal)
    ensures Alone(t, run) && run[0] == s
    ensures var s' := run[|run| - 1];
      && s'.Shaped() && s'.Now() == s.Now() && s'.total == s.total + 1 && s'.lock == Some(t)
      && s'.threads == s.threads[t := Writing(goal)] && s'.sequence == (s.sequence + 1) % SEQ_SPAN
  {
    var s1 := At(s, t, Locked).(lock := Some(t));
    var s2 := At(s1, t, Beginning(s.sequence));
    var s3 := At(s2, t, Writing(goal)).(sequence := (s.sequence + 1) % SEQ_SPAN, total := s.total + 1);
    assert StepsOn(t, s, s1) && s1.Now() == s.Now();
    assert StepsOn(t, s1, s2) && s2.Now() == s.Now();
    assert StepsOn(t, s2, s3) && s3.Now() == s.Now();
    run := [s, s1, s2, s3];
  }

  /** A writer that is alone carries out any outcome, and raises the sequence by two. */
  lemma WriteAlone(s: State, t: Tid, goal: Version) returns (run: seq<State>)
    requires s.Shaped() && t in s.threads && s.threads[t].Idle? && s.lock.None? && Outcome(s.Now(), goal)
    ensures Alone(t, run) && run[0] == s
    ensures var s' := run[|run| - 1];
      && s'.Shaped() && s'.Now() == goal && s'.total == s.total + 2 && s'.lock.None? && s'.threads == s.threads
      && s'.sequence == (s.sequence + 2) % 0x1_0000_0000
  {
    var a := BeginAlone(s, t, goal);
    var s1 := a[|a| - 1];
    var b := StoreAlone(s1, t, goal, |goal.words|);
    var s2 := b[|b| - 1];
    var d := EndAlone(s2, t, goal);
    AloneJoinAt(t, a, b);
    AloneJoinAt(t, a + b[1..], d);
    run := a + b[1..] + d[1..];
    assert s.threads[t := Idle] == s.threads;
    assert s1.threads[t := Idle] == s.threads;
    OneMoreCount(s.sequence + 1);
  }

}
