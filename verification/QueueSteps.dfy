/**
 The message queue (`src/ef_queue.c`) as interleaved steps of any number of pushers and poppers. The queue starts
 without its dummy slot: the first pushers race to install one by a compare-and-swap of the head, and the winner
 stores the tail in a later step, under no lock. Links are added and removed under the queue lock. Each step is one
 load, store or compare-and-swap; taking a slot from the free list and returning one are single steps here, whose
 own interleavings are the subject of `FreeListSteps`.
 */
module QueueSteps {
  import opened Base

  type Tid = nat
  type Slot = nat
  type Message = seq<nat>

  datatype Status = Free | Used | Queued | Dummy

  datatype Cell = Cell(next: Option<Slot>, status: Status, msg: Message)

  /** A push whose message is in a slot of its own, up to the store that links it, or to its failure. */
  datatype PushPc =
    | Filling
    | Entering
    | SawHead(h: Slot)
    | NeedsDummy
    | Installed(d: Slot)
    | Clearing
    | Marking
    | Waiting
    | PushLocked
    | PushTail(tl: Slot)
    | NoTail
    | Failing(err: Err)

  /** A push that has taken a second slot for the dummy. */
  datatype DummyPc = Got | Marked | Ready | Lost

  /** A pop, up to the store that unlinks the first message. */
  datatype PopPc =
    | PopHead
    | PopLocked
    | PopChecked
    | PopFirst(f: Slot)
    | PopQueued(f: Slot)
    | PopTail(f: Slot, tl: Slot)
    | PopNext(f: Slot, tl: Slot, n: Option<Slot>)
    | PopRead(f: Slot, tl: Slot, n: Option<Slot>, m: Message)

  datatype Pc =
    | Idle
    | Push(m: Message, x: Slot, at: PushPc)
    | MakeDummy(m: Message, x: Slot, d: Slot, stage: DummyPc)
    | Linked(x: Slot)
    | PushEnd
    | Pop(d: Slot, cap: nat, on: PopPc)
    | Moved(d: Slot, f: Slot, tl: Slot, n: Option<Slot>)
    | Returning(f: Slot)
    | PopEnd(err: Err)

  datatype Place = InPool | InQueue | With(t: Tid)

  /**
   What the threads share. The last five fields are history: where each slot is, the slots linked after the dummy,
   the messages linked and the messages popped so far, in the order of their links, and the thread that installed
   the dummy.
   */
  datatype Memory = Memory(
    head: Option<Slot>,
    tail: Option<Slot>,
    cells: map<Slot, Cell>,
    lock: Option<Tid>,
    place: map<Slot, Place>,
    nodes: seq<Slot>,
    linked: seq<Message>,
    popped: seq<Message>,
    installer: Option<Tid>)

  datatype State = State(mem: Memory, threads: map<Tid, Pc>)

  // ---------- Steps ----------

  function CellOf(g: Memory, x: Slot): Cell {
    if x in g.cells then g.cells[x] else Cell(None, Free, [])
  }

  function Store(g: Memory, x: Slot, c: Cell): Memory {
    g.(cells := g.cells[x := c])
  }

  ghost predicate Allocates(g: Memory, g': Memory, t: Tid, x: Slot) {
    && x in g.place && g.place[x] == InPool
    && g' == Store(g, x, Cell(None, Used, CellOf(g, x).msg)).(place := g.place[x := With(t)])
  }

  /** The slot goes back to the pool, whose list may set its link to anything. */
  ghost predicate Returns(g: Memory, g': Memory, x: Slot) {
    g' == Store(g, x, Cell(CellOf(g', x).next, Free, [])).(place := g.place[x := InPool])
  }

  /** Allocation and the payload, then the dummy, which a pusher creates when it finds none. */
  ghost predicate EnterStep(g: Memory, g': Memory, t: Tid, m: Message, x: Slot, at: PushPc, pc': Pc) {
    match at
    case Filling => g' == Store(g, x, CellOf(g, x).(msg := m)) && pc' == Push(m, x, Entering)
    case Entering => g' == g && pc' == Push(m, x, if g.head.Some? then SawHead(g.head.value) else NeedsDummy)
    case SawHead(h) => g' == g && pc' == Push(m, x, if CellOf(g, h).status == Dummy then Clearing else NeedsDummy)
    case NeedsDummy =>
      || (g' == g && pc' == Push(m, x, Failing(SlotFull)))
      || (pc'.MakeDummy? && pc' == MakeDummy(m, x, pc'.d, Got) && Allocates(g, g', t, pc'.d))
    case Installed(d) => g' == g.(tail := Some(d)) && pc' == Push(m, x, Clearing)
    case _ => false
  }

  ghost predicate DummyStep(g: Memory, g': Memory, t: Tid, m: Message, x: Slot, d: Slot, stage: DummyPc, pc': Pc) {
    match stage
    case Got => g' == Store(g, d, CellOf(g, d).(status := Dummy)) && pc' == MakeDummy(m, x, d, Marked)
    case Marked => g' == Store(g, d, CellOf(g, d).(next := None, msg := [])) && pc' == MakeDummy(m, x, d, Ready)
    case Ready =>
      if g.head.None? then
        && g' == g.(head := Some(d), place := g.place[d := InQueue], installer := Some(t))
        && pc' == Push(m, x, Installed(d))
      else g' == g && pc' == MakeDummy(m, x, d, Lost)
    case Lost => Returns(g, g', d) && pc' == Push(m, x, Clearing)
  }

  ghost predicate LinkStep(g: Memory, g': Memory, t: Tid, m: Message, x: Slot, at: PushPc, pc': Pc) {
    match at
    case Clearing => g' == Store(g, x, CellOf(g, x).(next := None)) && pc' == Push(m, x, Marking)
    case Marking => g' == Store(g, x, CellOf(g, x).(status := Queued)) && pc' == Push(m, x, Waiting)
    case Waiting =>
      || (g' == g && pc' == Push(m, x, Failing(QueueBusy)))
      || (g.lock.None? && g' == g.(lock := Some(t)) && pc' == Push(m, x, PushLocked))
    case PushLocked => g' == g && pc' == Push(m, x, if g.tail.Some? then PushTail(g.tail.value) else NoTail)
    case PushTail(tl) =>
      && g' == Store(g, tl, CellOf(g, tl).(next := Some(x))).(place := g.place[x := InQueue], nodes := g.nodes + [x],
                                                             linked := g.linked + [m])
      && pc' == Linked(x)
    case NoTail => g' == g.(lock := None) && pc' == Push(m, x, Failing(Offset))
    case Failing(_) => Returns(g, g', x) && pc' == Idle
    case _ => false
  }

  ghost predicate PopStep(g: Memory, g': Memory, t: Tid, d: Slot, cap: nat, on: PopPc, pc': Pc) {
    match on
    case PopHead =>
      || (g' == g && pc' == Idle)
      || (g.lock.None? && g' == g.(lock := Some(t)) && pc' == Pop(d, cap, PopLocked))
    case PopLocked =>
      g' == g && pc' == if CellOf(g, d).status == Dummy then Pop(d, cap, PopChecked) else PopEnd(NotFound)
    case PopChecked =>
      var first := CellOf(g, d).next;
      g' == g && pc' == if first.Some? then Pop(d, cap, PopFirst(first.value)) else PopEnd(QueueEmpty)
    case PopFirst(f) =>
      g' == g && pc' == if CellOf(g, f).status == Queued then Pop(d, cap, PopQueued(f)) else PopEnd(NotFound)
    case PopQueued(f) => g' == g && g.tail.Some? && pc' == Pop(d, cap, PopTail(f, g.tail.value))
    case PopTail(f, tl) => g' == g && pc' == Pop(d, cap, PopNext(f, tl, CellOf(g, f).next))
    case PopNext(f, tl, n) =>
      var m := CellOf(g, f).msg;
      g' == g && pc' == if |m| + 1 > cap then PopEnd(PayloadLen) else Pop(d, cap, PopRead(f, tl, n, m))
    case PopRead(f, tl, n, m) =>
      && g.nodes != []
      && g' == Store(g, d, CellOf(g, d).(next := n)).(place := g.place[f := With(t)], nodes := g.nodes[1..],
                                                      popped := g.popped + [m])
      && pc' == Moved(d, f, tl, n)
  }

  /** One step of thread `t`, from `pc` to `pc'`; an idle thread starts a push or a pop. */
  ghost predicate Effect(g: Memory, g': Memory, t: Tid, pc: Pc, pc': Pc) {
    match pc
    case Idle =>
      || (pc'.Push? && pc'.at == Filling && Allocates(g, g', t, pc'.x))
      || (pc'.Pop? && pc'.on == PopHead && g.head == Some(pc'.d) && g' == g)
    case Push(m, x, at) => EnterStep(g, g', t, m, x, at, pc') || LinkStep(g, g', t, m, x, at, pc')
    case MakeDummy(m, x, d, stage) => DummyStep(g, g', t, m, x, d, stage, pc')
    case Linked(x) => g' == g.(tail := Some(x)) && pc' == PushEnd
    case PushEnd => g' == g.(lock := None) && pc' == Idle
    case Pop(d, cap, on) => PopStep(g, g', t, d, cap, on, pc')
    case Moved(d, f, tl, n) =>
      g' == g.(tail := if tl == f then (if n.Some? then n else Some(d)) else g.tail) && pc' == Returning(f)
    case Returning(f) => Returns(g, g', f) && pc' == PopEnd(Ok)
    case PopEnd(_) => g' == g.(lock := None) && pc' == Idle
  }

  ghost predicate Steps(s: State, s': State, t: Tid) {
    && t in s.threads && t in s'.threads && s'.threads == s.threads[t := s'.threads[t]]
    && Effect(s.mem, s'.mem, t, s.threads[t], s'.threads[t])
  }

  ghost predicate Next(s: State, s': State) {
    exists t: Tid :: Steps(s, s', t)
  }

  ghost predicate Init(s: State) {
    var g := s.mem;
    && g.head.None? && g.tail.None? && g.lock.None? && g.nodes == [] && g.linked == [] && g.popped == []
    && g.cells.Keys == g.place.Keys
    && (forall x: Slot :: x in g.place ==> g.place[x] == InPool)
    && (forall t: Tid :: t in s.threads ==> s.threads[t] == Idle)
  }

  // ---------- The invariant ----------

  predicate InLock(pc: Pc) {
    match pc
    case Push(_, _, at) => at.PushLocked? || at.PushTail? || at.NoTail?
    case Pop(_, _, on) => !on.PopHead?
    case Idle => false
    case MakeDummy(_, _, _, _) => false
    case _ => true
  }

  /** The slots in a thread's hands. */
  function Hands(pc: Pc): set<Slot> {
    match pc
    case Push(_, x, _) => {x}
    case MakeDummy(_, x, d, _) => {x, d}
    case Moved(_, f, _, _) => {f}
    case Returning(f) => {f}
    case _ => {}
  }

  ghost predicate LockOk(s: State) {
    forall t: Tid :: t in s.threads && InLock(s.threads[t]) ==> s.mem.lock == Some(t)
  }

  /** The dummy and the slots linked after it. */
  function Queue(g: Memory): seq<Slot> {
    if g.head.Some? then [g.head.value] + g.nodes else g.nodes
  }

  ghost predicate HandsOk(g: Memory, t: Tid, pc: Pc) {
    forall x: Slot :: x in Hands(pc) <==> x in g.place && g.place[x] == With(t)
  }

  ghost predicate SharedOk(g: Memory) {
    g.cells.Keys == g.place.Keys && forall x: Slot :: x in Queue(g) <==> x in g.place && g.place[x] == InQueue
  }

  /** Every slot is in exactly one place: the pool, the queue, or the hands of one thread. */
  ghost predicate PlacesOk(s: State) {
    SharedOk(s.mem) && forall t: Tid :: t in s.threads ==> HandsOk(s.mem, t, s.threads[t])
  }

  function After(q: seq<Slot>, i: nat): Option<Slot> {
    if i + 1 < |q| then Some(q[i + 1]) else None
  }

  ghost predicate LinkAt(g: Memory, q: seq<Slot>, i: nat)
    requires i < |q|
  {
    CellOf(g, q[i]).next == After(q, i)
  }

  /** The links run from the dummy through exactly the linked slots and end there. */
  ghost predicate ChainOk(g: Memory, q: seq<Slot>) {
    Distinct(q) && forall i: nat :: i < |q| ==> LinkAt(g, q, i)
  }

  /** The slots in the queue hold, in order, the messages that were linked and not yet popped. */
  ghost predicate MessagesOk(g: Memory) {
    && (g.head.Some? ==> CellOf(g, g.head.value).status == Dummy)
    && |g.linked| == |g.popped| + |g.nodes|
    && g.popped == g.linked[..|g.popped|]
    && forall i: nat :: i < |g.nodes| ==>
         CellOf(g, g.nodes[i]).status == Queued && CellOf(g, g.nodes[i]).msg == g.linked[|g.popped| + i]
  }

  /** Nothing is linked before the tail is set. */
  ghost predicate TailOk(g: Memory) {
    && (g.head.None? ==> g.tail.None?)
    && (g.tail.None? ==> g.nodes == [] && g.linked == [])
  }

  ghost predicate QueueOk(g: Memory) {
    ChainOk(g, Queue(g)) && MessagesOk(g) && TailOk(g)
  }

  predicate Unsettled(pc: Pc) {
    pc.Linked? || pc.Moved?
  }

  ghost predicate Settled(g: Memory) {
    g.tail.Some? && g.head.Some? ==> g.tail.value == Queue(g)[|g.nodes|]
  }

  /** Only a lock holder between its two stores can have a tail that is not the last slot. */
  ghost predicate LastOk(s: State) {
    Settled(s.mem) || (s.mem.lock.Some? && s.mem.lock.value in s.threads && Unsettled(s.threads[s.mem.lock.value]))
  }

  ghost predicate First(g: Memory, f: Slot) {
    g.nodes != [] && g.nodes[0] == f
  }

  ghost predicate PushOk(g: Memory, t: Tid, m: Message, x: Slot, at: PushPc) {
    match at
    case Filling => true
    case SawHead(h) => CellOf(g, x).msg == m && g.head == Some(h)
    case Installed(d) => CellOf(g, x).msg == m && g.head == Some(d) && g.tail.None? && g.installer == Some(t)
    case Clearing => CellOf(g, x).msg == m && g.head.Some?
    case Marking => CellOf(g, x).msg == m && CellOf(g, x).next.None? && g.head.Some?
    case Waiting => CellOf(g, x) == Cell(None, Queued, m) && g.head.Some?
    case PushLocked => CellOf(g, x) == Cell(None, Queued, m) && g.head.Some? && Settled(g)
    case PushTail(tl) => CellOf(g, x) == Cell(None, Queued, m) && g.head.Some? && Settled(g) && g.tail == Some(tl)
    case NoTail => Settled(g)
    case Failing(_) => true
    case _ => CellOf(g, x).msg == m
  }

  ghost predicate DummyOk(g: Memory, m: Message, x: Slot, d: Slot, stage: DummyPc) {
    && CellOf(g, x).msg == m && x != d
    && match stage
       case Got => true
       case Marked => CellOf(g, d).status == Dummy
       case Ready => CellOf(g, d).status == Dummy && CellOf(g, d).next.None?
       case Lost => g.head.Some?
  }

  ghost predicate PopOk(g: Memory, d: Slot, on: PopPc) {
    && g.head == Some(d) && (!on.PopHead? ==> Settled(g))
    && match on
       case PopFirst(f) => First(g, f)
       case PopQueued(f) => First(g, f)
       case PopTail(f, tl) => First(g, f) && g.tail == Some(tl)
       case PopNext(f, tl, n) => First(g, f) && g.tail == Some(tl) && n == CellOf(g, f).next
       case PopRead(f, tl, n, m) => First(g, f) && g.tail == Some(tl) && n == CellOf(g, f).next && m == CellOf(g, f).msg
       case _ => true
  }

  /** What a thread has read and written is still so. */
  ghost predicate PcOk(g: Memory, t: Tid, pc: Pc) {
    match pc
    case Idle => true
    case Push(m, x, at) => PushOk(g, t, m, x, at)
    case MakeDummy(m, x, d, stage) => DummyOk(g, m, x, d, stage)
    case Linked(x) => g.head.Some? && g.tail.Some? && g.nodes != [] && g.nodes[|g.nodes| - 1] == x
    case Pop(d, _, on) => PopOk(g, d, on)
    case Moved(d, f, tl, n) =>
      && g.head == Some(d) && g.tail == Some(tl) && n == After(Queue(g), 0)
      && if tl == f then g.nodes == [] else Settled(g)
    case _ => Settled(g)
  }

  ghost predicate ThreadsOk(s: State) {
    forall t: Tid :: t in s.threads ==> PcOk(s.mem, t, s.threads[t])
  }

  ghost predicate Inv(s: State) {
    LockOk(s) && PlacesOk(s) && QueueOk(s.mem) && LastOk(s) && ThreadsOk(s)
  }

  // ---------- The lock ----------

  /** A thread enters the lock only when it is free, and frees it only on leaving. */
  ghost predicate LockMoves(g: Memory, g': Memory, t: Tid, pc': Pc) {
    if InLock(pc') then g'.lock == Some(t) && (g.lock.None? || g.lock == Some(t))
    else g'.lock == g.lock || (g.lock == Some(t) && g'.lock.None?)
  }

  lemma EffectMovesLock(g: Memory, g': Memory, t: Tid, pc: Pc, pc': Pc)
    requires Effect(g, g', t, pc, pc') && (InLock(pc) ==> g.lock == Some(t))
    ensures LockMoves(g, g', t, pc')
  {
  }

  lemma StepKeepsLock(s: State, s': State, t: Tid)
    requires LockOk(s) && Steps(s, s', t)
    ensures LockOk(s') && LockMoves(s.mem, s'.mem, t, s'.threads[t])
  {
    EffectMovesLock(s.mem, s'.mem, t, s.threads[t], s'.threads[t]);
  }

  // ---------- Quiet steps ----------

  /** The six stores that change the head, the tail or the links of the queue. */
  ghost predicate Loud(g: Memory, pc: Pc) {
    match pc
    case Push(_, _, at) => at.Installed? || at.PushTail?
    case MakeDummy(_, _, _, stage) => stage.Ready? && g.head.None?
    case Pop(_, _, on) => on.PopRead?
    case _ => Unsettled(pc)
  }

  /** A step that writes at most one slot `x`, its own or one from the pool, and may move it between the two. */
  ghost predicate Quiet(g: Memory, g': Memory, t: Tid, x: Slot) {
    && g'.head == g.head && g'.tail == g.tail && g'.nodes == g.nodes
    && g'.linked == g.linked && g'.popped == g.popped && g'.installer == g.installer
    && g'.cells == g.cells[x := CellOf(g', x)] && x in g.place && x in g'.place
    && g'.place == g.place[x := g'.place[x]]
    && (g.place[x] == InPool || g.place[x] == With(t))
    && (g'.place[x] == InPool || g'.place[x] == With(t))
  }

  /** The thread holds `x` after the step if that is its place. */
  ghost predicate Handed(g': Memory, t: Tid, x: Slot, pc: Pc, pc': Pc) {
    x in g'.place && Hands(pc') == if g'.place[x] == With(t) then Hands(pc) + {x} else Hands(pc) - {x}
  }

  /** Or a step that only changes the lock. */
  ghost predicate Silent(g: Memory, g': Memory, pc: Pc, pc': Pc) {
    g' == g.(lock := g'.lock) && Hands(pc') == Hands(pc)
  }

  lemma Held(g: Memory, t: Tid, pc: Pc, x: Slot)
    requires SharedOk(g) && HandsOk(g, t, pc) && x in Hands(pc)
    ensures x in g.place && x in g.cells && g.place[x] == With(t) && x !in Queue(g)
  {
  }

  lemma EnterIsQuiet(g: Memory, g': Memory, t: Tid, pc: Pc, pc': Pc) returns (x: Slot)
    requires SharedOk(g) && HandsOk(g, t, pc) && pc.Push? && EnterStep(g, g', t, pc.m, pc.x, pc.at, pc') && !Loud(g, pc)
    ensures Silent(g, g', pc, pc') || (Quiet(g, g', t, x) && Handed(g', t, x, pc, pc'))
  {
    Held(g, t, pc, pc.x);
    x := if pc'.MakeDummy? then pc'.d else pc.x;
  }

  lemma LinkIsQuiet(g: Memory, g': Memory, t: Tid, pc: Pc, pc': Pc)
    requires SharedOk(g) && HandsOk(g, t, pc) && pc.Push? && LinkStep(g, g', t, pc.m, pc.x, pc.at, pc') && !Loud(g, pc)
    ensures Silent(g, g', pc, pc') || (Quiet(g, g', t, pc.x) && Handed(g', t, pc.x, pc, pc'))
  {
    Held(g, t, pc, pc.x);
  }

  lemma DummyIsQuiet(g: Memory, g': Memory, t: Tid, pc: Pc, pc': Pc)
    requires SharedOk(g) && HandsOk(g, t, pc) && pc.MakeDummy? && PcOk(g, t, pc) && !Loud(g, pc)
    requires DummyStep(g, g', t, pc.m, pc.x, pc.d, pc.stage, pc')
    ensures Silent(g, g', pc, pc') || (Quiet(g, g', t, pc.d) && Handed(g', t, pc.d, pc, pc'))
  {
    Held(g, t, pc, pc.d);
  }

  lemma EffectIsQuiet(g: Memory, g': Memory, t: Tid, pc: Pc, pc': Pc) returns (x: Slot)
    requires SharedOk(g) && HandsOk(g, t, pc) && PcOk(g, t, pc) && Effect(g, g', t, pc, pc') && !Loud(g, pc)
    ensures Silent(g, g', pc, pc') || (Quiet(g, g', t, x) && Handed(g', t, x, pc, pc'))
  {
    x := 0;
    match pc
    case Idle =>
      if pc'.Push? {
        x := pc'.x;
      }
    case Push(m, z, at) =>
      if EnterStep(g, g', t, m, z, at, pc') {
        x := EnterIsQuiet(g, g', t, pc, pc');
      } else {
        x := z;
        LinkIsQuiet(g, g', t, pc, pc');
      }
    case MakeDummy(_, _, d, _) =>
      x := d;
      DummyIsQuiet(g, g', t, pc, pc');
    case Returning(f) =>
      x := f;
      Held(g, t, pc, x);
    case _ =>
  }

  lemma QuietKeepsPlaces(g: Memory, g': Memory, t: Tid, x: Slot)
    requires SharedOk(g) && Quiet(g, g', t, x)
    ensures SharedOk(g') && Queue(g') == Queue(g)
    ensures forall y: Slot :: y in Queue(g) ==> CellOf(g', y) == CellOf(g, y)
  {
    assert x !in Queue(g);
  }

  lemma QuietKeepsQueue(g: Memory, g': Memory, t: Tid, x: Slot)
    requires SharedOk(g) && QueueOk(g) && Quiet(g, g', t, x)
    ensures SharedOk(g') && QueueOk(g')
  {
    QuietKeepsPlaces(g, g', t, x);
    var q := Queue(g);
    forall i: nat | i < |q| ensures LinkAt(g', q, i) {
      assert q[i] in q && LinkAt(g, q, i);
    }
    if g.head.Some? {
      assert q[0] in q;
    }
    assert forall i: nat :: i < |g.nodes| ==> g.nodes[i] in q;
  }

  lemma QuietHands(g: Memory, g': Memory, t: Tid, x: Slot, pc: Pc, pc': Pc)
    requires Quiet(g, g', t, x) && Handed(g', t, x, pc, pc') && HandsOk(g, t, pc)
    ensures HandsOk(g', t, pc')
  {
  }

  /** What thread `u` relies on is left alone. */
  ghost predicate Harmless(g: Memory, g': Memory, pc: Pc) {
    && (forall y: Slot :: y in Hands(pc) ==> CellOf(g', y) == CellOf(g, y))
    && (g.head.Some? ==> g'.head == g.head)
    && (InLock(pc) ==>
          && g'.nodes == g.nodes && (Settled(g) ==> Settled(g')) && (g.tail.Some? ==> g'.tail == g.tail)
          && forall y: Slot :: y in Queue(g) ==> CellOf(g', y) == CellOf(g, y))
    && (pc.Push? && pc.at.Installed? ==> g'.tail == g.tail && g'.installer == g.installer)
  }

  lemma HarmlessKeeps(g: Memory, g': Memory, u: Tid, pc: Pc)
    requires PcOk(g, u, pc) && Harmless(g, g', pc)
    ensures PcOk(g', u, pc)
  {
    match pc
    case Push(_, x, _) => assert x in Hands(pc);
    case MakeDummy(_, x, d, _) => assert x in Hands(pc) && d in Hands(pc);
    case Pop(d, _, on) =>
      if on.PopNext? || on.PopRead? {
        assert g.nodes[0] in Queue(g);
      }
    case _ =>
  }

  lemma QuietIsHarmless(g: Memory, g': Memory, t: Tid, u: Tid, x: Slot, pc: Pc)
    requires SharedOk(g) && HandsOk(g, u, pc) && t != u && Quiet(g, g', t, x)
    ensures Harmless(g, g', pc) && HandsOk(g', u, pc)
  {
    assert x !in Hands(pc) && x !in Queue(g);
  }

  lemma PushOwn(g: Memory, g': Memory, t: Tid, pc: Pc, pc': Pc)
    requires pc.Push? && PcOk(g, t, pc) && !Loud(g, pc) && (g.lock.None? ==> Settled(g)) && Effect(g, g', t, pc, pc')
    ensures PcOk(g', t, pc') || pc'.MakeDummy?
  {
  }

  lemma DummyOwn(g: Memory, g': Memory, t: Tid, pc: Pc, pc': Pc)
    requires pc.MakeDummy? && PcOk(g, t, pc) && !Loud(g, pc) && Effect(g, g', t, pc, pc')
    ensures PcOk(g', t, pc')
  {
  }

  lemma PopOwn(g: Memory, g': Memory, t: Tid, pc: Pc, pc': Pc)
    requires QueueOk(g) && pc.Pop? && PcOk(g, t, pc) && !Loud(g, pc) && (g.lock.None? ==>
      Settled(g)) && Effect(g, g', t, pc, pc')
    ensures PcOk(g', t, pc')
  {
    assert Queue(g)[0] == pc.d;
    assert LinkAt(g, Queue(g), 0);
  }

  lemma QuietOwn(g: Memory, g': Memory, t: Tid, pc: Pc, pc': Pc)
    requires SharedOk(g) && QueueOk(g) && HandsOk(g, t, pc) && PcOk(g, t, pc) && !Loud(g, pc)
    requires (g.lock.None? ==> Settled(g)) && Effect(g, g', t, pc, pc')
    ensures PcOk(g', t, pc')
  {
    match pc
    case Push(m, x, at) =>
      if pc'.MakeDummy? {
        Held(g, t, pc, x);
        assert EnterStep(g, g', t, m, x, at, pc');
      } else {
        PushOwn(g, g', t, pc, pc');
      }
    case MakeDummy(_, _, _, _) => DummyOwn(g, g', t, pc, pc');
    case Pop(_, _, _) => PopOwn(g, g', t, pc, pc');
    case _ =>
  }

  // ---------- Loud steps ----------

  /** Distinct slots with one more at the end. */
  lemma Appended(g: Memory, g': Memory, q: seq<Slot>, tl: Slot, x: Slot)
    requires ChainOk(g, q) && q != [] && q[|q| - 1] == tl && x !in q && CellOf(g, x).next.None?
    requires forall y: Slot :: CellOf(g', y).next == if y == tl then Some(x) else CellOf(g, y).next
    ensures ChainOk(g', q + [x])
  {
    var r := q + [x];
    forall i: nat, j: nat | i < j < |r| ensures r[i] != r[j] {
      assert i < |q| && q[i] in q;
    }
    forall i: nat | i < |r| ensures LinkAt(g', r, i) {
      if i < |q| - 1 {
        assert q[i] != q[|q| - 1] && LinkAt(g, q, i);
      }
    }
  }

  /** Distinct slots without the second. */
  lemma Dropped(g: Memory, g': Memory, q: seq<Slot>)
    requires ChainOk(g, q) && |q| >= 2
    requires forall y: Slot :: CellOf(g', y).next == if y == q[0] then After(q, 1) else CellOf(g, y).next
    ensures ChainOk(g', [q[0]] + q[2..])
    ensures forall y: Slot :: y in [q[0]] + q[2..] <==> y in q && y != q[1]
  {
    var r := [q[0]] + q[2..];
    assert forall i: nat :: 0 < i < |r| ==> r[i] == q[i + 1];
    forall y: Slot | y in q && y != q[1] ensures y in r {
      var i: nat :| i < |q| && q[i] == y;
      assert i >= 2 ==> r[i - 1] == y;
    }
    forall i: nat | i < |r| ensures LinkAt(g', r, i) {
      if i > 0 {
        assert LinkAt(g, q, i + 1);
      }
    }
  }

  /** What a loud step of thread `t` must keep of the memory and of its own pc. */
  ghost predicate Kept(g': Memory, t: Tid, pc': Pc) {
    SharedOk(g') && QueueOk(g') && HandsOk(g', t, pc') && PcOk(g', t, pc')
  }

  ghost predicate Before(g: Memory, t: Tid, pc: Pc) {
    SharedOk(g) && QueueOk(g) && HandsOk(g, t, pc) && PcOk(g, t, pc)
  }

  lemma InstallKeeps(g: Memory, g': Memory, t: Tid, pc: Pc, pc': Pc)
    requires Before(g, t, pc) && pc.MakeDummy? && pc.stage.Ready? && g.head.None? && Effect(g, g', t, pc, pc')
    ensures Kept(g', t, pc')
  {
    Held(g, t, pc, pc.d);
    assert Queue(g') == [pc.d];
  }

  lemma TailSetKeeps(g: Memory, g': Memory, t: Tid, pc: Pc, pc': Pc)
    requires Before(g, t, pc) && pc.Push? && pc.at.Installed? && Effect(g, g', t, pc, pc')
    ensures Kept(g', t, pc') && g'.tail.Some? && g' == g.(tail := g'.tail) && Settled(g')
  {
    SameQueue(g, g');
  }

  ghost predicate Links(g: Memory, g': Memory, tl: Slot, x: Slot, m: Message) {
    && g.head.Some? && g.tail == Some(tl) && CellOf(g, x) == Cell(None, Queued, m)
    && tl == Queue(g)[|g.nodes|] && x !in Queue(g)
    && g' == Store(g, tl, CellOf(g, tl).(next := Some(x))).(place := g.place[x := InQueue], nodes := g.nodes + [x],
                                                           linked := g.linked + [m])
  }

  lemma LinkKeepsQueue(g: Memory, g': Memory, tl: Slot, x: Slot, m: Message)
    requires QueueOk(g) && Links(g, g', tl, x, m)
    ensures QueueOk(g') && Queue(g') == Queue(g) + [x]
  {
    var q := Queue(g);
    assert Queue(g') == q + [x];
    Appended(g, g', q, tl, x);
    LinkMessages(g, g', tl, x, m);
  }

  lemma LinkKeepsPlaces(g: Memory, g': Memory, tl: Slot, x: Slot, m: Message)
    requires SharedOk(g) && x in g.place && Links(g, g', tl, x, m)
    ensures SharedOk(g')
  {
    assert tl in Queue(g);
    assert Queue(g') == Queue(g) + [x];
  }

  lemma LinkKeeps(g: Memory, g': Memory, t: Tid, pc: Pc, pc': Pc)
    requires Before(g, t, pc) && pc.Push? && pc.at.PushTail? && Effect(g, g', t, pc, pc')
    ensures Kept(g', t, pc') && Links(g, g', pc.at.tl, pc.x, pc.m)
  {
    Held(g, t, pc, pc.x);
    LinkKeepsQueue(g, g', pc.at.tl, pc.x, pc.m);
    LinkKeepsPlaces(g, g', pc.at.tl, pc.x, pc.m);
  }

  lemma LinkMessages(g: Memory, g': Memory, tl: Slot, x: Slot, m: Message)
    requires MessagesOk(g) && g.head.Some? && CellOf(g, x) == Cell(None, Queued, m)
    requires g'.head == g.head && g'.nodes == g.nodes + [x] && g'.linked == g.linked + [m] && g'.popped == g.popped
    requires forall y: Slot :: CellOf(g', y) == if y == tl then CellOf(g, y).(next := Some(x)) else CellOf(g, y)
    ensures MessagesOk(g')
  {
    forall i: nat | i < |g'.nodes|
      ensures CellOf(g', g'.nodes[i]).status == Queued && CellOf(g', g'.nodes[i]).msg == g'.linked[|g'.popped| + i]
    {
      if i < |g.nodes| {
        assert g'.nodes[i] == g.nodes[i];
      }
    }
  }

  lemma TailMoveKeeps(g: Memory, g': Memory, t: Tid, pc: Pc, pc': Pc)
    requires Before(g, t, pc) && Unsettled(pc) && Effect(g, g', t, pc, pc')
    ensures Kept(g', t, pc') && g'.tail.Some? && g' == g.(tail := g'.tail) && Settled(g')
  {
    TailMoves(g, g', t, pc, pc');
    SameQueue(g, g');
  }

  lemma TailMoves(g: Memory, g': Memory, t: Tid, pc: Pc, pc': Pc)
    requires PcOk(g, t, pc) && Unsettled(pc) && Effect(g, g', t, pc, pc')
    ensures g.tail.Some? && g'.tail.Some? && g' == g.(tail := g'.tail) && Settled(g') && Hands(pc') == Hands(pc)
      && PcOk(g', t, pc')
  {
    assert Queue(g') == Queue(g);
  }

  lemma SameQueue(g: Memory, g': Memory)
    requires SharedOk(g) && QueueOk(g) && g.head.Some? && g'.tail.Some? && g' == g.(tail := g'.tail)
    ensures SharedOk(g') && QueueOk(g')
  {
    var q := Queue(g);
    assert Queue(g') == q;
    assert SharedOk(g');
    SameChain(g, g', q);
    assert MessagesOk(g') && TailOk(g');
  }

  lemma SameChain(g: Memory, g': Memory, q: seq<Slot>)
    requires ChainOk(g, q) && g'.cells == g.cells
    ensures ChainOk(g', q)
  {
    forall i: nat | i < |q| ensures LinkAt(g', q, i) {
      assert LinkAt(g, q, i);
    }
  }

  ghost predicate Unlinks(g: Memory, g': Memory, t: Tid, d: Slot, f: Slot, m: Message) {
    && g.head == Some(d) && First(g, f) && CellOf(g, f).msg == m
    && g' == Store(g, d, CellOf(g, d).(next := CellOf(g, f).next)).(place := g.place[f := With(t)],
                                                                    nodes := g.nodes[1..], popped := g.popped + [m])
  }

  lemma UnlinkKeepsQueue(g: Memory, g': Memory, t: Tid, d: Slot, f: Slot, m: Message)
    requires QueueOk(g) && g.tail.Some? && Unlinks(g, g', t, d, f, m)
    ensures QueueOk(g') && forall y: Slot :: y in Queue(g') <==> y in Queue(g) && y != f
  {
    var q := Queue(g);
    assert q[0] == d && q[1] == f && LinkAt(g, q, 1);
    assert Queue(g') == [d] + q[2..];
    Dropped(g, g', q);
    UnlinkMessages(g, g', d, f, m);
  }

  lemma UnlinkKeepsPlaces(g: Memory, g': Memory, t: Tid, d: Slot, f: Slot, m: Message)
    requires SharedOk(g) && Unlinks(g, g', t, d, f, m) && forall y: Slot :: y in Queue(g') <==> y in Queue(g) && y != f
    ensures SharedOk(g') && f in g.place && g.place[f] == InQueue
  {
    var q := Queue(g);
    assert q[0] == d && q[1] == f && d in q && f in q;
  }

  lemma UnlinkKeeps(g: Memory, g': Memory, t: Tid, pc: Pc, pc': Pc)
    requires Before(g, t, pc) && pc.Pop? && pc.on.PopRead? && Effect(g, g', t, pc, pc')
    ensures Kept(g', t, pc') && Unlinks(g, g', t, pc.d, pc.on.f, pc.on.m)
  {
    UnlinkKeepsQueue(g, g', t, pc.d, pc.on.f, pc.on.m);
    UnlinkKeepsPlaces(g, g', t, pc.d, pc.on.f, pc.on.m);
    UnlinkOwn(g, g', t, pc, pc');
  }

  lemma UnlinkOwn(g: Memory, g': Memory, t: Tid, pc: Pc, pc': Pc)
    requires ChainOk(g, Queue(g)) && PcOk(g, t, pc) && pc.Pop? && pc.on.PopRead? && Effect(g, g', t, pc, pc')
    ensures PcOk(g', t, pc')
  {
    var q := Queue(g);
    assert q[1] == pc.on.f && LinkAt(g, q, 1);
    assert Queue(g') == [q[0]] + q[2..];
    if |g.nodes| > 1 {
      assert q[|g.nodes|] != q[1];
    }
  }

  lemma UnlinkMessages(g: Memory, g': Memory, d: Slot, f: Slot, m: Message)
    requires MessagesOk(g) && g.head == Some(d) && First(g, f) && CellOf(g, f).msg == m
    requires g'.head == g.head && g'.nodes == g.nodes[1..] && g'.linked == g.linked && g'.popped == g.popped + [m]
    requires forall y: Slot :: CellOf(g', y).status == CellOf(g, y).status && CellOf(g', y).msg == CellOf(g, y).msg
    ensures MessagesOk(g')
  {
    assert m == g.linked[|g.popped| + 0];
    forall i: nat | i < |g'.nodes|
      ensures CellOf(g', g'.nodes[i]).status == Queued && CellOf(g', g'.nodes[i]).msg == g'.linked[|g'.popped| + i]
    {
      assert g'.nodes[i] == g.nodes[i + 1];
    }
  }

  lemma LoudKeeps(g: Memory, g': Memory, t: Tid, pc: Pc, pc': Pc)
    requires Before(g, t, pc) && Loud(g, pc) && Effect(g, g', t, pc, pc')
    ensures Kept(g', t, pc')
  {
    match pc
    case MakeDummy(_, _, _, _) => InstallKeeps(g, g', t, pc, pc');
    case Push(_, _, at) =>
      if at.Installed? {
        TailSetKeeps(g, g', t, pc, pc');
      } else {
        LinkKeeps(g, g', t, pc, pc');
      }
    case Pop(_, _, _) => UnlinkKeeps(g, g', t, pc, pc');
    case _ => TailMoveKeeps(g, g', t, pc, pc');
  }

  /** Another thread `u` at `other`, which is not in the lock if `t` is. */
  ghost predicate Beside(g: Memory, t: Tid, u: Tid, pc: Pc, other: Pc) {
    t != u && HandsOk(g, u, other) && PcOk(g, u, other) && !(InLock(pc) && InLock(other))
  }

  lemma InstallIsHarmless(g: Memory, g': Memory, t: Tid, u: Tid, pc: Pc, pc': Pc, other: Pc)
    requires Before(g, t, pc) && Beside(g, t, u, pc, other) && Effect(g, g', t, pc, pc')
    requires pc.MakeDummy? && pc.stage.Ready? && g.head.None?
    ensures Harmless(g, g', other) && HandsOk(g', u, other)
  {
    Held(g, t, pc, pc.d);
  }

  lemma TailIsHarmless(g: Memory, g': Memory, t: Tid, u: Tid, pc: Pc, pc': Pc, other: Pc)
    requires Before(g, t, pc) && Beside(g, t, u, pc, other) && Effect(g, g', t, pc, pc')
    requires Unsettled(pc) || (pc.Push? && pc.at.Installed?)
    ensures Harmless(g, g', other) && HandsOk(g', u, other)
  {
    if Unsettled(pc) {
      TailMoves(g, g', t, pc, pc');
      LockedTail(g, g', t, u, pc, pc', other);
    } else {
      TailSetKeeps(g, g', t, pc, pc');
      FirstTail(g, g', t, u, pc, pc', other);
    }
  }

  lemma LockedTail(g: Memory, g': Memory, t: Tid, u: Tid, pc: Pc, pc': Pc, other: Pc)
    requires Beside(g, t, u, pc, other) && Unsettled(pc)
    requires g.tail.Some? && g' == g.(tail := g'.tail)
    ensures Harmless(g, g', other) && HandsOk(g', u, other)
  {
  }

  lemma FirstTail(g: Memory, g': Memory, t: Tid, u: Tid, pc: Pc, pc': Pc, other: Pc)
    requires Beside(g, t, u, pc, other) && pc.Push? && pc.at.Installed? && PcOk(g, t, pc)
    requires g' == g.(tail := g'.tail) && Settled(g')
    ensures Harmless(g, g', other) && HandsOk(g', u, other)
  {
  }

  lemma LinkIsHarmless(g: Memory, g': Memory, t: Tid, u: Tid, pc: Pc, pc': Pc, other: Pc)
    requires Before(g, t, pc) && Beside(g, t, u, pc, other) && Effect(g, g', t, pc, pc')
    requires pc.Push? && pc.at.PushTail?
    ensures Harmless(g, g', other) && HandsOk(g', u, other)
  {
    LinkKeeps(g, g', t, pc, pc');
    Held(g, t, pc, pc.x);
    assert pc.at.tl in Queue(g);
  }

  lemma UnlinkIsHarmless(g: Memory, g': Memory, t: Tid, u: Tid, pc: Pc, pc': Pc, other: Pc)
    requires Before(g, t, pc) && Beside(g, t, u, pc, other) && Effect(g, g', t, pc, pc')
    requires pc.Pop? && pc.on.PopRead?
    ensures Harmless(g, g', other) && HandsOk(g', u, other)
  {
    UnlinkKeeps(g, g', t, pc, pc');
    assert Queue(g)[0] == pc.d && Queue(g)[1] == pc.on.f;
    assert pc.d in Queue(g) && pc.on.f in Queue(g);
  }

  lemma LoudIsHarmless(g: Memory, g': Memory, t: Tid, u: Tid, pc: Pc, pc': Pc, other: Pc)
    requires Before(g, t, pc) && Beside(g, t, u, pc, other) && Loud(g, pc) && Effect(g, g', t, pc, pc')
    ensures Harmless(g, g', other) && HandsOk(g', u, other)
  {
    match pc
    case MakeDummy(_, _, _, _) => InstallIsHarmless(g, g', t, u, pc, pc', other);
    case Push(_, _, at) =>
      if at.Installed? {
        TailIsHarmless(g, g', t, u, pc, pc', other);
      } else {
        LinkIsHarmless(g, g', t, u, pc, pc', other);
      }
    case Pop(_, _, _) => UnlinkIsHarmless(g, g', t, u, pc, pc', other);
    case _ => TailIsHarmless(g, g', t, u, pc, pc', other);
  }

  // ---------- Every step keeps the invariant ----------

  lemma SilentKeeps(g: Memory, g': Memory, t: Tid, u: Tid, pc: Pc, pc': Pc, other: Pc)
    requires SharedOk(g) && QueueOk(g) && HandsOk(g, t, pc) && HandsOk(g, u, other) && Silent(g, g', pc, pc')
    ensures SharedOk(g') && QueueOk(g') && HandsOk(g', t, pc') && Harmless(g, g', other) && HandsOk(g', u, other)
  {
    var q := Queue(g);
    assert Queue(g') == q;
    forall i: nat | i < |q| ensures LinkAt(g', q, i) {
      assert LinkAt(g, q, i);
    }
  }

  lemma OwnStep(g: Memory, g': Memory, t: Tid, pc: Pc, pc': Pc)
    requires Before(g, t, pc) && (g.lock.None? ==> Settled(g)) && Effect(g, g', t, pc, pc')
    ensures Kept(g', t, pc')
  {
    if Loud(g, pc) {
      LoudKeeps(g, g', t, pc, pc');
    } else {
      QuietOwn(g, g', t, pc, pc');
      var x := EffectIsQuiet(g, g', t, pc, pc');
      if Silent(g, g', pc, pc') {
        SilentKeeps(g, g', t, t, pc, pc', pc);
      } else {
        QuietKeepsQueue(g, g', t, x);
        QuietHands(g, g', t, x, pc, pc');
      }
    }
  }

  lemma OtherStep(g: Memory, g': Memory, t: Tid, u: Tid, pc: Pc, pc': Pc, other: Pc)
    requires Before(g, t, pc) && Beside(g, t, u, pc, other) && Effect(g, g', t, pc, pc')
    ensures PcOk(g', u, other) && HandsOk(g', u, other)
  {
    if Loud(g, pc) {
      LoudIsHarmless(g, g', t, u, pc, pc', other);
    } else {
      var x := EffectIsQuiet(g, g', t, pc, pc');
      if Silent(g, g', pc, pc') {
        SilentKeeps(g, g', t, u, pc, pc', other);
      } else {
        QuietIsHarmless(g, g', t, u, x, other);
      }
    }
    HarmlessKeeps(g, g', u, other);
  }

  /** After its step a thread in the lock, or the free lock, leaves the tail at the last slot unless in between. */
  lemma StepKeepsLast(s: State, s': State, t: Tid)
    requires Inv(s) && Steps(s, s', t) && LockOk(s') && PcOk(s'.mem, t, s'.threads[t])
    ensures LastOk(s')
  {
    var g, g', pc, pc' := s.mem, s'.mem, s.threads[t], s'.threads[t];
    assert HandsOk(g, t, pc) && PcOk(g, t, pc);
    StepKeepsLock(s, s', t);
    if Loud(g, pc) {
      LoudLast(g, g', t, pc, pc');
    } else {
      var x := EffectIsQuiet(g, g', t, pc, pc');
      assert Queue(g') == Queue(g) && Settled(g') == Settled(g);
    }
  }

  lemma LoudLast(g: Memory, g': Memory, t: Tid, pc: Pc, pc': Pc)
    requires Before(g, t, pc) && Loud(g, pc) && Effect(g, g', t, pc, pc')
    ensures Settled(g') || (Unsettled(pc') && InLock(pc'))
  {
    if Unsettled(pc) {
      TailMoveKeeps(g, g', t, pc, pc');
    } else if pc.Push? && pc.at.Installed? {
      TailSetKeeps(g, g', t, pc, pc');
    } else {
      BetweenStores(g, g', t, pc, pc');
    }
  }

  lemma BetweenStores(g: Memory, g': Memory, t: Tid, pc: Pc, pc': Pc)
    requires TailOk(g) && Loud(g, pc) && !Unsettled(pc) && !(pc.Push? && pc.at.Installed?) && Effect(g, g', t, pc, pc')
    ensures Settled(g') || (Unsettled(pc') && InLock(pc'))
  {
  }

  lemma StepKeeps(s: State, s': State, t: Tid)
    requires Inv(s) && Steps(s, s', t)
    ensures Inv(s')
  {
    var g, g', pc, pc' := s.mem, s'.mem, s.threads[t], s'.threads[t];
    assert HandsOk(g, t, pc) && PcOk(g, t, pc);
    StepKeepsLock(s, s', t);
    OwnStep(g, g', t, pc, pc');
    forall u: Tid | u in s'.threads ensures PcOk(g', u, s'.threads[u]) && HandsOk(g', u, s'.threads[u]) {
      if u != t {
        assert HandsOk(g, u, s.threads[u]) && PcOk(g, u, s.threads[u]);
        OtherStep(g, g', t, u, pc, pc', s.threads[u]);
      }
    }
    StepKeepsLast(s, s', t);
  }

  // ---------- Runs ----------

  ghost predicate Run(trace: seq<State>) {
    trace != [] && Init(trace[0]) && forall i: nat :: i + 1 < |trace| ==> Follows(trace, i)
  }

  ghost predicate Follows(trace: seq<State>, i: nat)
    requires i + 1 < |trace|
  {
    Next(trace[i], trace[i + 1])
  }

  /** Every state of every interleaving satisfies the invariant. */
  lemma {:induction false} RunKeeps(trace: seq<State>, i: nat)
    requires Run(trace) && i < |trace|
    ensures Inv(trace[i])
  {
    if i > 0 {
      RunKeeps(trace, i - 1);
      assert Follows(trace, i - 1);
      var t: Tid :| Steps(trace[i - 1], trace[i], t);
      StepKeeps(trace[i - 1], trace[i], t);
    }
  }

  ghost function Unpopped(g: Memory): seq<Message> {
    seq(|g.nodes|, i requires 0 <= i < |g.nodes| => CellOf(g, g.nodes[i]).msg)
  }

  /**
   The queue is first-in first-out: the messages popped, followed by the messages in the slots linked after the
   dummy, are the messages linked, in the order of their links. None is lost, repeated or overtaken.
   */
  lemma FirstInFirstOut(trace: seq<State>, i: nat)
    requires Run(trace) && i < |trace|
    ensures trace[i].mem.popped + Unpopped(trace[i].mem) == trace[i].mem.linked
  {
    RunKeeps(trace, i);
    UnpoppedRemain(trace[i].mem);
  }

  lemma UnpoppedRemain(g: Memory)
    requires MessagesOk(g)
    ensures g.popped + Unpopped(g) == g.linked
  {
    var p := g.popped;
    assert Unpopped(g) == g.linked[|p|..];
    assert g.linked == g.linked[..|p|] + g.linked[|p|..];
  }

  /** Nothing is linked before the tail is set, and the slots linked after the dummy form a chain that ends. */
  lemma LinkedAfterTail(trace: seq<State>, i: nat)
    requires Run(trace) && i < |trace|
    ensures trace[i].mem.tail.None? ==> trace[i].mem.linked == []
    ensures ChainOk(trace[i].mem, Queue(trace[i].mem))
  {
    RunKeeps(trace, i);
  }

  /** At most one dummy is ever installed: once set, the head never changes. */
  lemma {:induction false} OneDummy(trace: seq<State>, i: nat, j: nat)
    requires Run(trace) && i <= j < |trace| && trace[i].mem.head.Some?
    ensures trace[j].mem.head == trace[i].mem.head
    decreases j
  {
    if i < j {
      OneDummy(trace, i, j - 1);
      assert Follows(trace, j - 1);
      NextKeepsHead(trace[j - 1], trace[j]);
    }
  }

  lemma NextKeepsHead(s: State, s': State)
    requires Next(s, s') && s.mem.head.Some?
    ensures s'.mem.head == s.mem.head
  {
    var t: Tid :| Steps(s, s', t);
    HeadStays(s.mem, s'.mem, t, s.threads[t], s'.threads[t]);
  }

  lemma HeadStays(g: Memory, g': Memory, t: Tid, pc: Pc, pc': Pc)
    requires Effect(g, g', t, pc, pc') && g.head.Some?
    ensures g'.head == g.head
  {
  }

  /** No slot is ever in two hands, or in the queue and in a hand; an idle thread holds none. */
  lemma SlotsAreConserved(trace: seq<State>, i: nat, t: Tid, x: Slot)
    requires Run(trace) && i < |trace| && t in trace[i].threads && x in Hands(trace[i].threads[t])
    ensures x !in Queue(trace[i].mem)
    ensures forall u: Tid :: u in trace[i].threads && x in Hands(trace[i].threads[u]) ==> u == t
  {
    RunKeeps(trace, i);
    var s := trace[i];
    assert HandsOk(s.mem, t, s.threads[t]);
    forall u: Tid | u in s.threads && x in Hands(s.threads[u]) ensures u == t {
      assert HandsOk(s.mem, u, s.threads[u]);
    }
  }

  // ---------- Reports ----------

  /**
   What a pop reports, under the lock: QUEUE_EMPTY if and only if every linked message has been popped, PAYLOAD_LEN
   if and only if the oldest message does not fit the buffer, and otherwise it takes that message. The branches for
   a missing dummy and for a slot of another status are never taken.
   */
  lemma PopReports(s: State, s': State, t: Tid)
    requires Inv(s) && Steps(s, s', t) && s.threads[t].Pop? && !s.threads[t].on.PopHead?
    ensures var g, g', pc, pc' := s.mem, s'.mem, s.threads[t], s'.threads[t];
      && (pc'.PopEnd? ==> g' == g && pc'.err in {QueueEmpty, PayloadLen})
      && (pc' == PopEnd(QueueEmpty) <==> pc.on.PopChecked? && g.popped == g.linked)
      && (!pc.on.PopLocked? && !pc.on.PopChecked? ==> |g.popped| < |g.linked|)
      && (|g.popped| < |g.linked| ==>
            && (pc' == PopEnd(PayloadLen) <==> pc.on.PopNext? && |g.linked[|g.popped|]| >= pc.cap)
            && (pc.on.PopRead? ==> g'.popped == g.popped + [g.linked[|g.popped|]] && g'.linked == g.linked))
  {
    var g, pc := s.mem, s.threads[t];
    assert PcOk(g, t, pc);
    assert LinkAt(g, Queue(g), 0);
    if g.nodes != [] {
      assert CellOf(g, g.nodes[0]).msg == g.linked[|g.popped| + 0];
    }
  }

  /** A push that waits for neither a slot nor the lock fails only while the first dummy has not become the tail. */
  lemma PushReports(s: State, s': State, t: Tid)
    requires Inv(s) && Steps(s, s', t) && s.threads[t].Push?
    ensures var g, pc, pc' := s.mem, s.threads[t], s'.threads[t];
      && (pc.at.PushLocked? ==> pc'.Push? && (pc'.at.NoTail? <==> g.tail.None?) && (pc'.at.NoTail? ==> g.linked == []))
      && (pc'.Push? && pc'.at == Failing(Offset) <==> pc.at.NoTail?)
      && (pc.at.SawHead? ==> pc' == Push(pc.m, pc.x, Clearing))
      && (pc.at.PushTail? <==> s'.mem.linked != g.linked)
      && (pc.at.PushTail? ==> s'.mem.linked == g.linked + [pc.m])
  {
    assert PcOk(s.mem, t, s.threads[t]);
  }

  // ---------- Threads alone ----------

  datatype View = View(mem: Memory, pc: Pc)

  ghost predicate StepsOn(t: Tid, v: View, v': View) {
    Effect(v.mem, v'.mem, t, v.pc, v'.pc)
  }

  /** A run of thread `t` without steps of others. */
  ghost predicate Alone(t: Tid, run: seq<View>) {
    run != [] && forall i: nat :: i + 1 < |run| ==> StepsOn(t, run[i], run[i + 1])
  }

  lemma AloneJoin(t: Tid, a: seq<View>, b: seq<View>)
    requires Alone(t, a) && Alone(t, b) && a[|a| - 1] == b[0]
    ensures Alone(t, a + b[1..]) && (a + b[1..])[|a| + |b| - 2] == b[|b| - 1] && (a + b[1..])[0] == a[0]
  {
    var c := a + b[1..];
    forall i: nat | i + 1 < |c| ensures StepsOn(t, c[i], c[i + 1]) {
      if i + 1 < |a| {
        assert StepsOn(t, a[i], a[i + 1]);
      } else {
        assert StepsOn(t, b[i + 1 - |a|], b[i + 2 - |a|]);
      }
    }
  }

  /** The slots in the pool. */
  ghost function Pool(g: Memory): iset<Slot> {
    iset x: Slot | x in g.place && g.place[x] == InPool
  }

  /** The slot `x` in the hands of `t`, ready to be linked. */
  ghost function Filled(g: Memory, t: Tid, m: Message, x: Slot): Memory {
    g.(cells := g.cells[x := Cell(None, Queued, m)], place := g.place[x := With(t)])
  }

  lemma FillAlone(g: Memory, t: Tid, m: Message, x: Slot) returns (run: seq<View>)
    requires x in Pool(g) && g.head.Some? && CellOf(g, g.head.value).status == Dummy && x != g.head.value
    ensures Alone(t, run) && |run| == 7 && run[0] == View(g, Idle)
    ensures run[6] == View(Filled(g, t, m, x), Push(m, x, Waiting))
  {
    var g1 := Store(g, x, Cell(None, Used, CellOf(g, x).msg)).(place := g.place[x := With(t)]);
    var g2 := Store(g1, x, CellOf(g1, x).(msg := m));
    var g3 := Store(g2, x, CellOf(g2, x).(next := None));
    var g4 := Store(g3, x, CellOf(g3, x).(status := Queued));
    run := [View(g, Idle), View(g1, Push(m, x, Filling)), View(g2, Push(m, x, Entering)),
            View(g2, Push(m, x, SawHead(g.head.value))), View(g2, Push(m, x, Clearing)), View(g3, Push(m, x, Marking)),
            View(g4, Push(m, x, Waiting))];
    assert g4.cells == Filled(g, t, m, x).cells;
  }

  lemma LinkAlone(g: Memory, t: Tid, m: Message, x: Slot) returns (run: seq<View>)
    requires g.lock.None? && g.tail.Some?
    ensures Alone(t, run) && |run| == 6 && run[0] == View(g, Push(m, x, Waiting)) && run[5].pc == Idle
    ensures run[5].mem == Store(g, g.tail.value, CellOf(g, g.tail.value).(next := Some(x)))
              .(place := g.place[x := InQueue], nodes := g.nodes + [x], linked := g.linked + [m], tail := Some(x))
  {
    var tl := g.tail.value;
    var g1 := g.(lock := Some(t));
    var g2 := Store(g1, tl, CellOf(g1, tl).(next := Some(x)))
              .(place := g1.place[x := InQueue], nodes := g1.nodes + [x], linked := g1.linked + [m]);
    var g3 := g2.(tail := Some(x));
    run := [View(g, Push(m, x, Waiting)), View(g1, Push(m, x, PushLocked)), View(g1, Push(m, x, PushTail(tl))),
            View(g2, Linked(x)), View(g3, PushEnd), View(g3.(lock := None), Idle)];
  }

  /** A push that is alone, finds the lock free, a free slot and the tail set, links its message and ends. */
  lemma PushAlone(s: State, t: Tid, m: Message, x: Slot) returns (run: seq<View>)
    requires Inv(s) && s.mem.lock.None? && s.mem.tail.Some? && x in Pool(s.mem)
    ensures Alone(t, run) && |run| == 12 && run[0] == View(s.mem, Idle) && run[11].pc == Idle
    ensures var g := run[11].mem;
      && g.linked == s.mem.linked + [m] && g.nodes == s.mem.nodes + [x] && g.popped == s.mem.popped
      && g.lock.None? && g.tail == Some(x) && g.head == s.mem.head && g.place == s.mem.place[x := InQueue]
      && CellOf(g, x) == Cell(None, Queued, m)
  {
    var g := s.mem;
    assert x !in Queue(g);
    assert g.tail.value in Queue(g);
    var a := FillAlone(g, t, m, x);
    var g1 := Filled(g, t, m, x);
    var b := LinkAlone(g1, t, m, x);
    AloneJoin(t, a, b);
    run := a + b[1..];
    assert g1.place[x := InQueue] == g.place[x := InQueue];
  }

  lemma MeetNoDummy(g: Memory, t: Tid, m: Message, x: Slot) returns (run: seq<View>)
    requires x in Pool(g) && g.head.None?
    ensures Alone(t, run) && |run| == 4 && run[0] == View(g, Idle) && run[3].pc == Push(m, x, NeedsDummy)
    ensures run[3].mem == Store(g, x, Cell(None, Used, m)).(place := g.place[x := With(t)])
  {
    var g1 := Store(g, x, Cell(None, Used, CellOf(g, x).msg)).(place := g.place[x := With(t)]);
    var g2 := Store(g1, x, CellOf(g1, x).(msg := m));
    assert g2.cells == g.cells[x := Cell(None, Used, m)];
    run := [View(g, Idle), View(g1, Push(m, x, Filling)), View(g2, Push(m, x, Entering)),
            View(g2, Push(m, x, NeedsDummy))];
  }

  lemma InstallAlone(g: Memory, t: Tid, m: Message, x: Slot, d: Slot) returns (run: seq<View>)
    requires d in Pool(g) && g.head.None?
    ensures Alone(t, run) && |run| == 6 && run[0] == View(g, Push(m, x, NeedsDummy))
    ensures run[5].pc == Push(m, x, Clearing)
    ensures run[5].mem == g.(cells := g.cells[d := Cell(None, Dummy, [])], place := g.place[d := InQueue],
                             head := Some(d), tail := Some(d), installer := Some(t))
  {
    var g1 := Store(g, d, Cell(None, Used, CellOf(g, d).msg)).(place := g.place[d := With(t)]);
    var g2 := Store(g1, d, CellOf(g1, d).(status := Dummy));
    var g3 := Store(g2, d, CellOf(g2, d).(next := None, msg := []));
    var g4 := g3.(head := Some(d), place := g3.place[d := InQueue], installer := Some(t));
    var g5 := g4.(tail := Some(d));
    run := [View(g, Push(m, x, NeedsDummy)), View(g1, MakeDummy(m, x, d, Got)), View(g2, MakeDummy(m, x, d, Marked)),
            View(g3, MakeDummy(m, x, d, Ready)), View(g4, Push(m, x, Installed(d))), View(g5, Push(m, x, Clearing))];
    assert g4.place == g.place[d := InQueue] && g3.cells == g.cells[d := Cell(None, Dummy, [])];
  }

  lemma ReadyAlone(g: Memory, t: Tid, m: Message, x: Slot) returns (run: seq<View>)
    requires CellOf(g, x).status == Used && CellOf(g, x).msg == m
    ensures Alone(t, run) && |run| == 3 && run[0] == View(g, Push(m, x, Clearing))
    ensures run[2] == View(Store(g, x, Cell(None, Queued, m)), Push(m, x, Waiting))
  {
    var g1 := Store(g, x, CellOf(g, x).(next := None));
    var g2 := Store(g1, x, CellOf(g1, x).(status := Queued));
    assert g2 == Store(g, x, Cell(None, Queued, m));
    run := [View(g, Push(m, x, Clearing)), View(g1, Push(m, x, Marking)), View(g2, Push(m, x, Waiting))];
  }

  /** The first push of all, alone, installs a dummy from the pool and links its message after it. */
  lemma FirstPushAlone(s: State, t: Tid, m: Message, x: Slot, d: Slot) returns (run: seq<View>)
    requires Inv(s) && s.mem.lock.None? && s.mem.head.None? && x in Pool(s.mem) && d in Pool(s.mem) && x != d
    ensures Alone(t, run) && |run| == 16 && run[0] == View(s.mem, Idle) && run[15].pc == Idle
    ensures var g := run[15].mem;
      && g.linked == [m] && g.nodes == [x] && g.popped == [] && g.lock.None? && g.head == Some(d) && g.tail == Some(x)
      && g.place == s.mem.place[d := InQueue][x := InQueue]
      && CellOf(g, d) == Cell(Some(x), Dummy, []) && CellOf(g, x) == Cell(None, Queued, m)
  {
    var g := s.mem;
    var z := MeetNoDummy(g, t, m, x);
    var a := InstallAlone(z[3].mem, t, m, x, d);
    AloneJoin(t, z, a);
    var za := z + a[1..];
    var b := ReadyAlone(a[5].mem, t, m, x);
    AloneJoin(t, za, b);
    var zab := za + b[1..];
    var c := LinkAlone(b[2].mem, t, m, x);
    AloneJoin(t, zab, c);
    run := zab + c[1..];
    assert run[15].mem.place == g.place[d := InQueue][x := InQueue];
  }

  lemma LookAlone(g: Memory, t: Tid, cap: nat, d: Slot, f: Slot, tl: Slot) returns (run: seq<View>)
    requires g.lock.None? && g.head == Some(d) && CellOf(g, d).status == Dummy && CellOf(g, d).next == Some(f)
    requires CellOf(g, f).status == Queued && g.tail == Some(tl) && |CellOf(g, f).msg| < cap
    ensures Alone(t, run) && |run| == 9 && run[0] == View(g, Idle)
    ensures run[8] == View(g.(lock := Some(t)), Pop(d, cap, PopRead(f, tl, CellOf(g, f).next, CellOf(g, f).msg)))
  {
    var g1, n, m := g.(lock := Some(t)), CellOf(g, f).next, CellOf(g, f).msg;
    run := [View(g, Idle), View(g, Pop(d, cap, PopHead)), View(g1, Pop(d, cap, PopLocked)),
            View(g1, Pop(d, cap, PopChecked)), View(g1, Pop(d, cap, PopFirst(f))), View(g1, Pop(d, cap, PopQueued(f))),
            View(g1, Pop(d, cap, PopTail(f, tl))), View(g1, Pop(d, cap, PopNext(f, tl, n))),
            View(g1, Pop(d, cap, PopRead(f, tl, n, m)))];
  }

  lemma UnlinkAlone(g: Memory, t: Tid, cap: nat, d: Slot, f: Slot, tl: Slot, n: Option<Slot>, m: Message)
    returns (run: seq<View>)
    requires g.nodes != [] && f != d
    ensures Alone(t, run) && |run| == 5 && run[0] == View(g, Pop(d, cap, PopRead(f, tl, n, m)))
    ensures run[3].pc == PopEnd(Ok) && run[4].pc == Idle
    ensures run[4].mem == g.(cells := g.cells[d := CellOf(g, d).(next := n)][f := Cell(None, Free, [])], lock := None,
                             place := g.place[f := InPool], nodes := g.nodes[1..], popped := g.popped + [m],
                             tail := if tl == f then (if n.Some? then n else Some(d)) else g.tail)
  {
    var g1 := Store(g, d, CellOf(g, d).(next := n))
              .(place := g.place[f := With(t)], nodes := g.nodes[1..], popped := g.popped + [m]);
    var g2 := g1.(tail := if tl == f then (if n.Some? then n else Some(d)) else g1.tail);
    var g3 := Store(g2, f, Cell(None, Free, [])).(place := g2.place[f := InPool]);
    assert g3.place == g.place[f := InPool];
    run := [View(g, Pop(d, cap, PopRead(f, tl, n, m))), View(g1, Moved(d, f, tl, n)), View(g2, Returning(f)),
            View(g3, PopEnd(Ok)), View(g3.(lock := None), Idle)];
  }

  /** A pop that is alone, finds the lock free and a message that fits its buffer, takes the oldest message. */
  lemma PopAlone(s: State, t: Tid, cap: nat) returns (run: seq<View>)
    requires Inv(s) && s.mem.lock.None?
    requires |s.mem.popped| < |s.mem.linked| && |s.mem.linked[|s.mem.popped|]| < cap
    ensures Alone(t, run) && |run| == 13 && run[0] == View(s.mem, Idle) && run[12].pc == Idle
    ensures run[11].pc == PopEnd(Ok)
    ensures var g := run[12].mem;
      && g.popped == s.mem.popped + [s.mem.linked[|s.mem.popped|]] && g.linked == s.mem.linked
      && s.mem.nodes != [] && g.nodes == s.mem.nodes[1..]
      && g.lock.None? && g.head == s.mem.head && g.place == s.mem.place[s.mem.nodes[0] := InPool]
      && g.tail == if g.nodes == [] then g.head else s.mem.tail
  {
    var g := s.mem;
    FirstOfQueue(g);
    var d, f, tl := g.head.value, g.nodes[0], g.tail.value;
    var n, m := CellOf(g, f).next, CellOf(g, f).msg;
    var a := LookAlone(g, t, cap, d, f, tl);
    var b := UnlinkAlone(g.(lock := Some(t)), t, cap, d, f, tl, n, m);
    AloneJoin(t, a, b);
    run := a + b[1..];
    assert run[11] == b[3];
  }

  lemma FirstOfQueue(g: Memory)
    requires QueueOk(g) && Settled(g) && |g.popped| < |g.linked|
    ensures g.nodes != [] && g.head.Some? && g.tail.Some? && g.nodes[0] != g.head.value
    ensures CellOf(g, g.head.value) == CellOf(g, g.head.value).(status := Dummy, next := Some(g.nodes[0]))
    ensures CellOf(g, g.nodes[0]).status == Queued && CellOf(g, g.nodes[0]).msg == g.linked[|g.popped|]
    ensures g.tail.value == g.nodes[0] <==> |g.nodes| == 1
    ensures |g.nodes| == 1 ==> CellOf(g, g.nodes[0]).next.None?
  {
    var q := Queue(g);
    assert CellOf(g, g.nodes[0]).msg == g.linked[|g.popped| + 0];
    assert LinkAt(g, q, 0) && LinkAt(g, q, 1) && q[1] == g.nodes[0] && q[|g.nodes|] == g.tail.value;
  }
}
