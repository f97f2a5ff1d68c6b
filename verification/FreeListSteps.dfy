/**
 The lock-free list of free slots (`ef_free_list_pop_atomic`, `ef_free_list_push_atomic` in `src/endfields.c`) as
 interleaved steps. Pops run under the index write lock (`ef_alloc_slot_ex`), pushes under no lock, and any number
 of threads may push at once. Each step is one load, store, compare-and-swap or fetch-and-add.
 */
module FreeListSteps {
  import opened Base

  type Tid = nat
  type Slot = nat

  datatype Pc =
    | Rest
    // pop, with the lock held
    | PopLocked
    | PopHead(h: Slot)
    | PopChecked(h: Slot)
    | PopNext(h: Slot, n: Option<Slot>)
    | PopWon(h: Slot)
    | PopCleared(h: Slot)
    | PopCounted(h: Slot)
    | PopFailed
    // push, with no lock
    | PushStart(x: Slot)
    | PushHead(x: Slot, seen: Option<Slot>)
    | PushLinked(x: Slot, seen: Option<Slot>)
    | PushWon

  /** A thread and the slots that it has been given. */
  datatype Thread = Thread(owned: set<Slot>, pc: Pc)

  datatype Place = OnList | With(t: Tid)

  /**
   `list` and `place` are history: the slots on the list, in order, as the swaps of the head made it, and where
   each slot is.
   */
  datatype State = State(
    head: Option<Slot>,
    next: map<Slot, Option<Slot>>,
    count: int,
    lock: Option<Tid>,
    threads: map<Tid, Thread>,
    list: seq<Slot>,
    place: map<Slot, Place>)

  // ---------- Steps ----------

  ghost predicate GoesTo(s: State, s': State, t: Tid, pc: Pc)
    requires t in s.threads
  {
    s' == s.(threads := s.threads[t := s.threads[t].(pc := pc)])
  }

  ghost predicate PopStep(s: State, s': State, t: Tid)
    requires t in s.threads
  {
    var th := s.threads[t];
    match th.pc
    case Rest =>
      s.lock.None? && s' == s.(lock := Some(t), threads := s.threads[t := th.(pc := PopLocked)])
    case PopLocked =>
      if s.head.None? then GoesTo(s, s', t, PopFailed) else GoesTo(s, s', t, PopHead(s.head.value))
    case PopHead(h) =>
      if s.count == 0 then GoesTo(s, s', t, PopFailed) else GoesTo(s, s', t, PopChecked(h))
    case PopChecked(h) =>
      h in s.next && GoesTo(s, s', t, PopNext(h, s.next[h]))
    case PopNext(h, n) =>
      if s.head == Some(h) then
        && s.list != []
        && s' == s.(head := n, list := s.list[1..], place := s.place[h := With(t)],
                    threads := s.threads[t := th.(pc := PopWon(h))])
      else GoesTo(s, s', t, PopLocked)
    case PopWon(h) =>
      s' == s.(next := s.next[h := None], threads := s.threads[t := th.(pc := PopCleared(h))])
    case PopCleared(h) =>
      s' == s.(count := s.count - 1, threads := s.threads[t := th.(pc := PopCounted(h))])
    case PopCounted(h) =>
      s' == s.(lock := None, threads := s.threads[t := Thread(th.owned + {h}, Rest)])
    case PopFailed =>
      s' == s.(lock := None, threads := s.threads[t := th.(pc := Rest)])
    case _ => false
  }

  ghost predicate PushStep(s: State, s': State, t: Tid)
    requires t in s.threads
  {
    var th := s.threads[t];
    match th.pc
    case Rest =>
      exists x: Slot :: x in th.owned && s' == s.(threads := s.threads[t := Thread(th.owned - {x}, PushStart(x))])
    case PushStart(x) =>
      GoesTo(s, s', t, PushHead(x, s.head))
    case PushHead(x, h) =>
      s' == s.(next := s.next[x := h], threads := s.threads[t := th.(pc := PushLinked(x, h))])
    case PushLinked(x, h) =>
      if s.head == h then
        s' == s.(head := Some(x), list := [x] + s.list, place := s.place[x := OnList],
                 threads := s.threads[t := th.(pc := PushWon)])
      else GoesTo(s, s', t, PushStart(x))
    case PushWon =>
      s' == s.(count := s.count + 1, threads := s.threads[t := th.(pc := Rest)])
    case _ => false
  }

  ghost predicate Next(s: State, s': State) {
    exists t: Tid :: t in s.threads && (PopStep(s, s', t) || PushStep(s, s', t))
  }

  ghost predicate Init(s: State, all: set<Slot>) {
    && ListOk(s) && s.count == |s.list| && s.lock.None?
    && (forall t: Tid :: t in s.threads ==> s.threads[t].pc.Rest?)
    && PlacesOk(s, all)
  }

  // ---------- The invariant ----------

  /** The links from `head` run through exactly these slots and end: the list has no cycle. */
  ghost predicate Chain(next: map<Slot, Option<Slot>>, head: Option<Slot>, l: seq<Slot>)
    decreases l
  {
    if l == [] then head.None?
    else head == Some(l[0]) && l[0] in next && Chain(next, next[l[0]], l[1..])
  }

  /** The slots that a thread has in hand, whether given to it or in transit. */
  function Hands(th: Thread): set<Slot> {
    match th.pc
    case PopWon(h) => th.owned + {h}
    case PopCleared(h) => th.owned + {h}
    case PopCounted(h) => th.owned + {h}
    case PushStart(x) => th.owned + {x}
    case PushHead(x, _) => th.owned + {x}
    case PushLinked(x, _) => th.owned + {x}
    case _ => th.owned
  }

  /** A slot in transit is not also counted as given. */
  ghost predicate InTransit(th: Thread) {
    match th.pc
    case PopWon(h) => h !in th.owned
    case PopCleared(h) => h !in th.owned
    case PopCounted(h) => h !in th.owned
    case PushStart(x) => x !in th.owned
    case PushHead(x, _) => x !in th.owned
    case PushLinked(x, _) => x !in th.owned
    case _ => true
  }

  /** Every slot is in exactly one place: on the list, or in the hands of one thread. */
  ghost predicate PlacesOk(s: State, all: set<Slot>) {
    && s.place.Keys == all
    && (forall x: Slot :: x in s.list <==> x in all && s.place[x].OnList?)
    && (forall t: Tid, x: Slot :: t in s.threads ==> (x in Hands(s.threads[t]) <==> x in all && s.place[x] == With(t)))
    && (forall x: Slot :: x in all && s.place[x].With? ==> s.place[x].t in s.threads)
  }

  predicate InPop(pc: Pc) {
    || pc.PopLocked? || pc.PopHead? || pc.PopChecked? || pc.PopNext?
    || pc.PopWon? || pc.PopCleared? || pc.PopCounted? || pc.PopFailed?
  }

  predicate AwaitsDecrement(pc: Pc) {
    pc.PopWon? || pc.PopCleared?
  }

  ghost predicate LockOk(s: State) {
    forall t: Tid :: t in s.threads && InPop(s.threads[t].pc) ==> s.lock == Some(t)
  }

  /** What a pop has seen still holds, because no other pop runs and pushes touch only their own slot. */
  ghost predicate PcOk(s: State, pc: Pc) {
    match pc
    case PopHead(h) => h in s.list
    case PopChecked(h) => h in s.list && s.count >= 1
    case PopNext(h, n) => h in s.list && h in s.next && s.next[h] == n && s.count >= 1
    case PopWon(_) => s.count >= 1
    case PopCleared(_) => s.count >= 1
    case PushLinked(x, h) => x in s.next && s.next[x] == h
    case _ => true
  }

  ghost function Decrements(s: State): set<Tid> {
    set t | t in s.threads && AwaitsDecrement(s.threads[t].pc)
  }

  ghost function Increments(s: State): set<Tid> {
    set t | t in s.threads && s.threads[t].pc.PushWon?
  }

  ghost predicate CountOk(s: State) {
    s.count >= 0 && s.count == |s.list| + |Decrements(s)| - |Increments(s)|
  }

  ghost predicate ThreadsOk(s: State) {
    forall t: Tid :: t in s.threads ==> ThreadOk(s, t)
  }

  ghost predicate ThreadOk(s: State, t: Tid)
    requires t in s.threads
  {
    PcOk(s, s.threads[t].pc) && InTransit(s.threads[t])
  }

  ghost predicate ListOk(s: State) {
    Chain(s.next, s.head, s.list) && Distinct(s.list)
  }

  ghost predicate Inv(s: State, all: set<Slot>) {
    && ListOk(s) && LockOk(s) && ThreadsOk(s) && CountOk(s) && PlacesOk(s, all)
  }

  // ---------- Every step keeps it ----------

  /** The step of thread `t` leaves the other threads and their slots alone. */
  ghost predicate OnlyMoves(s: State, s': State, t: Tid) {
    && t in s.threads && t in s'.threads
    && s'.threads == s.threads[t := s'.threads[t]]
  }

  lemma StepMovesOne(s: State, s': State, t: Tid)
    requires t in s.threads && (PopStep(s, s', t) || PushStep(s, s', t))
    ensures OnlyMoves(s, s', t)
  {
  }

  lemma TailDistinct(l: seq<Slot>)
    requires Distinct(l) && l != []
    ensures Distinct(l[1..]) && l[0] !in l[1..]
  {
  }

  lemma ConsDistinct(l: seq<Slot>, x: Slot)
    requires Distinct(l) && x !in l
    ensures Distinct([x] + l)
  {
    var m := [x] + l;
    forall i: nat, j: nat | i < j < |m| ensures m[i] != m[j] {
      assert m[j] == l[j - 1];
      assert i > 0 ==> m[i] == l[i - 1];
    }
  }

  lemma {:induction false} ChainFrame(next: map<Slot, Option<Slot>>, head: Option<Slot>, l: seq<Slot>, x: Slot,
      v: Option<Slot>)
    requires Chain(next, head, l) && x !in l
    ensures Chain(next[x := v], head, l)
    decreases l
  {
    if l != [] {
      ChainFrame(next, next[l[0]], l[1..], x, v);
    }
  }

  /** A slot in hand is not on the list, nor in the hands of another thread. */
  lemma Apart(s: State, all: set<Slot>, t: Tid, u: Tid, x: Slot)
    requires PlacesOk(s, all) && t in s.threads && u in s.threads && x in Hands(s.threads[t])
    ensures x !in s.list && (x in Hands(s.threads[u]) ==> t == u)
  {
  }

  lemma StepKeepsLock(s: State, s': State, t: Tid)
    requires LockOk(s) && t in s.threads && (PopStep(s, s', t) || PushStep(s, s', t))
    ensures LockOk(s')
  {
    StepMovesOne(s, s', t);
    var pc := s.threads[t].pc;
    forall u: Tid | u in s'.threads && InPop(s'.threads[u].pc) ensures s'.lock == Some(u) {
      if u != t {
        assert InPop(s.threads[u].pc);
      }
    }
  }

  lemma PopKeepsList(s: State, s': State, all: set<Slot>, t: Tid)
    requires ListOk(s) && PlacesOk(s, all) && t in s.threads && PcOk(s, s.threads[t].pc) && PopStep(s, s', t)
    ensures ListOk(s')
  {
    var th := s.threads[t];
    if th.pc.PopNext? && s.head == Some(th.pc.h) {
      TailDistinct(s.list);
    } else if th.pc.PopWon? {
      Apart(s, all, t, t, th.pc.h);
      ChainFrame(s.next, s.head, s.list, th.pc.h, None);
    }
  }

  lemma PushKeepsList(s: State, s': State, all: set<Slot>, t: Tid)
    requires ListOk(s) && PlacesOk(s, all) && t in s.threads && PcOk(s, s.threads[t].pc) && PushStep(s, s', t)
    ensures ListOk(s')
  {
    var th := s.threads[t];
    if th.pc.PushHead? {
      Apart(s, all, t, t, th.pc.x);
      ChainFrame(s.next, s.head, s.list, th.pc.x, th.pc.seen);
    } else if th.pc.PushLinked? && s.head == th.pc.seen {
      Apart(s, all, t, t, th.pc.x);
      ConsDistinct(s.list, th.pc.x);
      assert s'.list[1..] == s.list;
    }
  }

  /** The parts of a step that another thread can see: its own slot's link, pushes, and a pop under the lock. */
  ghost predicate Harmless(s: State, s': State, u: Tid)
    requires u in s.threads
  {
    var pc := s.threads[u].pc;
    && (InPop(pc) ==> s.count <= s'.count && forall x: Slot :: x in s.list ==> x in s'.list)
    && (forall x: Slot :: x in s.list || x in Hands(s.threads[u]) ==> (x in s.next ==>
      x in s'.next && s'.next[x] == s.next[x]))
  }

  lemma HarmlessKeeps(s: State, s': State, u: Tid)
    requires u in s.threads && Harmless(s, s', u) && PcOk(s, s.threads[u].pc)
    ensures PcOk(s', s.threads[u].pc)
  {
    var pc := s.threads[u].pc;
    if pc.PushLinked? {
      assert pc.x in Hands(s.threads[u]);
    }
  }

  lemma PopIsHarmless(s: State, s': State, all: set<Slot>, t: Tid, u: Tid)
    requires LockOk(s) && PlacesOk(s, all) && t in s.threads && u in s.threads && t != u && PopStep(s, s', t)
    ensures Harmless(s, s', u)
  {
    var th := s.threads[t];
    assert !InPop(s.threads[u].pc);
    if th.pc.PopWon? {
      Apart(s, all, t, u, th.pc.h);
    }
  }

  lemma PushIsHarmless(s: State, s': State, all: set<Slot>, t: Tid, u: Tid)
    requires PlacesOk(s, all) && t in s.threads && u in s.threads && t != u && PushStep(s, s', t)
    ensures Harmless(s, s', u)
  {
    var th := s.threads[t];
    if th.pc.PushHead? {
      Apart(s, all, t, u, th.pc.x);
    }
  }

  lemma PopKeepsOwn(s: State, s': State, all: set<Slot>, t: Tid)
    requires ListOk(s) && PlacesOk(s, all) && CountOk(s) && t in s.threads && ThreadOk(s, t) && PopStep(s, s', t)
    ensures t in s'.threads && ThreadOk(s', t)
  {
    var th := s.threads[t];
    if th.pc.PopNext? {
      assert th.pc.h !in Hands(th) by {
        if th.pc.h in Hands(th) {
          Apart(s, all, t, t, th.pc.h);
        }
      }
    }
  }

  lemma PushKeepsOwn(s: State, s': State, t: Tid)
    requires t in s.threads && ThreadOk(s, t) && PushStep(s, s', t)
    ensures t in s'.threads && ThreadOk(s', t)
  {
  }

  lemma StepKeepsThreads(s: State, s': State, all: set<Slot>, t: Tid)
    requires Inv(s, all) && t in s.threads && (PopStep(s, s', t) || PushStep(s, s', t))
    ensures ThreadsOk(s')
  {
    StepMovesOne(s, s', t);
    forall u: Tid | u in s'.threads ensures ThreadOk(s', u) {
      assert ThreadOk(s, u);
      if u == t {
        if PopStep(s, s', t) {
          PopKeepsOwn(s, s', all, t);
        } else {
          PushKeepsOwn(s, s', t);
        }
      } else {
        if PopStep(s, s', t) {
          PopIsHarmless(s, s', all, t, u);
        } else {
          PushIsHarmless(s, s', all, t, u);
        }
        HarmlessKeeps(s, s', u);
      }
    }
  }

  /** A swap of the head moves one slot between the list and one thread. */
  lemma Relocated(s: State, s': State, all: set<Slot>, t: Tid, x: Slot, p: Place)
    requires PlacesOk(s, all) && OnlyMoves(s, s', t) && x in all
    requires s'.place == s.place[x := p] && (p == OnList || p == With(t))
    requires s.place[x] == OnList || s.place[x] == With(t)
    requires forall y: Slot :: y in s'.list <==> if y == x then p == OnList else y in s.list
    requires Hands(s'.threads[t]) == if p == OnList then Hands(s.threads[t]) - {x} else Hands(s.threads[t]) + {x}
    ensures PlacesOk(s', all)
  {
    forall u: Tid, y: Slot | u in s'.threads
      ensures y in Hands(s'.threads[u]) <==> y in all && s'.place[y] == With(u)
    {
      assert y in Hands(s.threads[u]) <==> y in all && s.place[y] == With(u);
    }
  }

  lemma SamePlaces(s: State, s': State, all: set<Slot>, t: Tid)
    requires PlacesOk(s, all) && OnlyMoves(s, s', t)
    requires s'.list == s.list && s'.place == s.place
    requires Hands(s'.threads[t]) == Hands(s.threads[t])
    ensures PlacesOk(s', all)
  {
    forall u: Tid, y: Slot | u in s'.threads
      ensures y in Hands(s'.threads[u]) <==> y in all && s'.place[y] == With(u)
    {
      assert y in Hands(s.threads[u]) <==> y in all && s.place[y] == With(u);
    }
  }

  lemma PopKeepsPlaces(s: State, s': State, all: set<Slot>, t: Tid)
    requires ListOk(s) && PlacesOk(s, all) && t in s.threads && ThreadOk(s, t) && PopStep(s, s', t)
    ensures PlacesOk(s', all)
  {
    StepMovesOne(s, s', t);
    var th := s.threads[t];
    if th.pc.PopNext? && s.head == Some(th.pc.h) {
      var h := th.pc.h;
      TailDistinct(s.list);
      assert s.list == [h] + s.list[1..];
      assert Hands(s'.threads[t]) == Hands(th) + {h};
      assert h in s.list;
      Relocated(s, s', all, t, h, With(t));
    } else {
      SamePlaces(s, s', all, t);
    }
  }

  lemma PushKeepsPlaces(s: State, s': State, all: set<Slot>, t: Tid)
    requires ListOk(s) && PlacesOk(s, all) && t in s.threads && ThreadOk(s, t) && PushStep(s, s', t)
    ensures PlacesOk(s', all)
  {
    StepMovesOne(s, s', t);
    var th := s.threads[t];
    if th.pc.PushLinked? && s.head == th.pc.seen {
      var x := th.pc.x;
      assert x in Hands(th);
      assert Hands(s'.threads[t]) == Hands(th) - {x};
      Relocated(s, s', all, t, x, OnList);
    } else {
      assert Hands(s'.threads[t]) == Hands(th);
      SamePlaces(s, s', all, t);
    }
  }

  lemma Resized(a: set<Tid>, b: set<Tid>, t: Tid)
    requires forall u: Tid :: u != t ==> (u in a <==> u in b)
    ensures |b| == |a| - (if t in a then 1 else 0) + (if t in b then 1 else 0)
  {
    assert a - {t} == b - {t};
    Singleton(a, t);
    Singleton(b, t);
  }

  lemma Singleton(a: set<Tid>, t: Tid)
    ensures |a| == |a - {t}| + if t in a then 1 else 0
  {
    if t in a {
      assert a == (a - {t}) + {t};
    } else {
      assert a == a - {t};
    }
  }

  function Debt(pc: Pc): int {
    (if AwaitsDecrement(pc) then 1 else 0) - if pc.PushWon? then 1 else 0
  }

  /** How one thread's step changes the numbers of threads that owe a count. */
  lemma Owing(s: State, s': State, t: Tid)
    requires OnlyMoves(s, s', t)
    ensures |Decrements(s')| - |Increments(s')|
         == |Decrements(s)| - |Increments(s)| - Debt(s.threads[t].pc) + Debt(s'.threads[t].pc)
  {
    Resized(Decrements(s), Decrements(s'), t);
    Resized(Increments(s), Increments(s'), t);
  }

  lemma StepKeepsCount(s: State, s': State, t: Tid)
    requires CountOk(s) && t in s.threads && PcOk(s, s.threads[t].pc) && (PopStep(s, s', t) || PushStep(s, s', t))
    ensures CountOk(s')
  {
    StepMovesOne(s, s', t);
    Owing(s, s', t);
  }

  /** Every step of every thread keeps the invariant. */
  lemma NextKeeps(s: State, s': State, all: set<Slot>)
    requires Inv(s, all) && Next(s, s')
    ensures Inv(s', all)
  {
    var t: Tid :| t in s.threads && (PopStep(s, s', t) || PushStep(s, s', t));
    assert ThreadOk(s, t);
    StepKeepsLock(s, s', t);
    StepKeepsThreads(s, s', all, t);
    StepKeepsCount(s, s', t);
    if PopStep(s, s', t) {
      PopKeepsList(s, s', all, t);
      PopKeepsPlaces(s, s', all, t);
    } else {
      PushKeepsList(s, s', all, t);
      PushKeepsPlaces(s, s', all, t);
    }
  }

  // ---------- Runs ----------

  ghost predicate Run(trace: seq<State>, all: set<Slot>) {
    trace != [] && Init(trace[0], all) && forall i: nat :: i + 1 < |trace| ==> Next(trace[i], trace[i + 1])
  }

  /**
   In every interleaving the list stays a proper chain, the free count is never negative and differs from the
   length of the list by exactly the threads that have swapped the head but not yet counted, and every slot is in
   exactly one place.
   */
  lemma {:induction false} RunKeeps(trace: seq<State>, all: set<Slot>, i: nat)
    requires Run(trace, all) && i < |trace|
    ensures Inv(trace[i], all)
  {
    if i == 0 {
      var s := trace[0];
      assert Decrements(s) == {} && Increments(s) == {};
    } else {
      RunKeeps(trace, all, i - 1);
      assert Next(trace[i - 1], trace[i - 1 + 1]);
      NextKeeps(trace[i - 1], trace[i], all);
    }
  }

  /** No slot is handed out twice, and no slot that is handed out is on the list. */
  lemma NoDoubleAllocation(trace: seq<State>, all: set<Slot>, i: nat, t: Tid, u: Tid, x: Slot)
    requires Run(trace, all) && i < |trace| && t in trace[i].threads && u in trace[i].threads
    requires x in trace[i].threads[t].owned
    ensures x in trace[i].threads[u].owned ==> t == u
    ensures x !in trace[i].list
  {
    RunKeeps(trace, all, i);
    Apart(trace[i], all, t, u, x);
  }

  /** When no thread is in the middle of an operation, the free count is the length of the list. */
  lemma QuietCount(trace: seq<State>, all: set<Slot>, i: nat)
    requires Run(trace, all) && i < |trace| && forall t: Tid :: t in trace[i].threads ==> trace[i].threads[t].pc.Rest?
    ensures trace[i].count == |trace[i].list|
  {
    RunKeeps(trace, all, i);
    assert Decrements(trace[i]) == {} && Increments(trace[i]) == {};
  }

  // ---------- Reports ----------

  /**
   When a pop gives up: the list is empty, or the count is zero, which on a list that is not empty means that a
   push has linked its slot and not counted it yet. A pop that wins takes the first slot of the list.
   */
  lemma PopReports(s: State, s': State, all: set<Slot>, t: Tid)
    requires Inv(s, all) && t in s.threads && PopStep(s, s', t)
    ensures var pc, pc' := s.threads[t].pc, s'.threads[t].pc;
      && (pc.PopLocked? ==> (pc'.PopFailed? <==> s.list == []))
      && (pc.PopHead? ==> s.list != [] && (pc'.PopFailed? <==> s.count == 0))
      && (pc.PopHead? && pc'.PopFailed? ==> exists u: Tid :: u in s.threads && s.threads[u].pc.PushWon?)
      && (pc'.PopFailed? ==> pc.PopLocked? || pc.PopHead?)
      && (pc'.PopWon? <==> s'.list != s.list)
      && (pc'.PopWon? ==> s.list == [pc'.h] + s'.list)
      && (pc.PopNext? && !pc'.PopWon? ==> pc'.PopLocked? && s.head != Some(pc.h))
  {
    assert ThreadOk(s, t);
    if s.threads[t].pc.PopHead? && s.count == 0 {
      assert |Increments(s)| > 0;
      var u: Tid :| u in Increments(s);
      assert u in s.threads && s.threads[u].pc.PushWon?;
    }
  }

  // ---------- Threads alone ----------

  ghost predicate StepsOn(t: Tid, s: State, s': State) {
    t in s.threads && (PopStep(s, s', t) || PushStep(s, s', t))
  }

  /** A run of thread `t` without steps of others. */
  ghost predicate Alone(t: Tid, run: seq<State>) {
    run != [] && forall i: nat :: i + 1 < |run| ==> StepsOn(t, run[i], run[i + 1])
  }

  ghost function At(s: State, t: Tid, pc: Pc): State
    requires t in s.threads
  {
    s.(threads := s.threads[t := s.threads[t].(pc := pc)])
  }

  lemma TakeFirst(s: State, t: Tid, h: Slot, n: Option<Slot>) returns (run: seq<State>)
    requires t in s.threads && s.threads[t].pc.Rest? && s.lock.None? && s.list != [] && s.count > 0
    requires s.head == Some(h) && h in s.next && n == s.next[h]
    ensures Alone(t, run) && |run| == 6 && run[0] == s
    ensures run[5] == At(s, t, PopWon(h)).(lock := Some(t), head := n, list := s.list[1..],
                                           place := s.place[h := With(t)])
  {
    var s1 := At(s, t, PopLocked).(lock := Some(t));
    var s2 := At(s1, t, PopWon(h)).(head := n, list := s.list[1..], place := s.place[h := With(t)]);
    run := [s, s1, At(s1, t, PopHead(h)), At(s1, t, PopChecked(h)), At(s1, t, PopNext(h, n)), s2];
    assert At(At(s1, t, PopHead(h)), t, PopChecked(h)) == At(s1, t, PopChecked(h));
    assert At(At(s1, t, PopChecked(h)), t, PopNext(h, n)) == At(s1, t, PopNext(h, n));
    assert s2.threads == At(s1, t, PopNext(h, n)).threads[t := s.threads[t].(pc := PopWon(h))];
    assert StepsOn(t, run[0], run[1]) && StepsOn(t, run[1], run[2]) && StepsOn(t, run[2], run[3]);
    assert StepsOn(t, run[3], run[4]) && StepsOn(t, run[4], run[5]);
  }

  lemma HandOut(s: State, t: Tid, h: Slot) returns (run: seq<State>)
    requires t in s.threads && s.threads[t].pc == PopWon(h)
    ensures Alone(t, run) && |run| == 4 && run[0] == s
    ensures run[3] == s.(next := s.next[h := None], count := s.count - 1, lock := None,
                         threads := s.threads[t := Thread(s.threads[t].owned + {h}, Rest)])
  {
    var s1 := At(s, t, PopCleared(h)).(next := s.next[h := None]);
    var s2 := At(s1, t, PopCounted(h)).(count := s.count - 1);
    var s3 := s2.(lock := None, threads := s2.threads[t := Thread(s.threads[t].owned + {h}, Rest)]);
    run := [s, s1, s2, s3];
    assert s3.threads == s.threads[t := Thread(s.threads[t].owned + {h}, Rest)];
    assert StepsOn(t, run[0], run[1]) && StepsOn(t, run[1], run[2]) && StepsOn(t, run[2], run[3]);
  }

  /** A pop that is alone and finds the lock free and a counted slot is given the first slot of the list. */
  lemma PopAlone(s: State, all: set<Slot>, t: Tid) returns (run: seq<State>)
    requires Inv(s, all) && t in s.threads && s.threads[t].pc.Rest? && s.lock.None? && s.list != [] && s.count > 0
    ensures Alone(t, run) && |run| == 9 && run[0] == s
    ensures var s', x := run[8], s.list[0];
      && s'.list == s.list[1..] && s'.count == s.count - 1 && s'.lock.None?
      && s'.threads == s.threads[t := Thread(s.threads[t].owned + {x}, Rest)]
      && s'.place == s.place[x := With(t)] && s'.next == s.next[x := None]
  {
    var h := s.list[0];
    var a := TakeFirst(s, t, h, s.next[h]);
    var b := HandOut(a[5], t, h);
    run := a + b[1..];
    forall i: nat | i + 1 < |run| ensures StepsOn(t, run[i], run[i + 1]) {
      assert if i < 5 then StepsOn(t, a[i], a[i + 1]) else StepsOn(t, b[i - 5], b[i - 4]);
    }
    assert run[8].threads == s.threads[t := Thread(s.threads[t].owned + {h}, Rest)];
  }

  /** A push that is alone puts its slot first and counts it. */
  lemma PushAlone(s: State, t: Tid, x: Slot) returns (run: seq<State>)
    requires t in s.threads && s.threads[t].pc.Rest? && x in s.threads[t].owned
    ensures Alone(t, run) && |run| == 6 && run[0] == s
    ensures var s' := run[5];
      && s'.list == [x] + s.list && s'.count == s.count + 1 && s'.lock == s.lock && s'.head == Some(x)
      && s'.threads == s.threads[t := Thread(s.threads[t].owned - {x}, Rest)]
      && s'.place == s.place[x := OnList] && s'.next == s.next[x := s.head]
  {
    var th := Thread(s.threads[t].owned - {x}, PushStart(x));
    var s1 := s.(threads := s.threads[t := th]);
    var s2 := At(s1, t, PushHead(x, s.head));
    var s3 := At(s2, t, PushLinked(x, s.head)).(next := s.next[x := s.head]);
    var s4 := At(s3, t, PushWon).(head := Some(x), list := [x] + s.list, place := s.place[x := OnList]);
    var s5 := At(s4, t, Rest).(count := s.count + 1);
    run := [s, s1, s2, s3, s4, s5];
    assert s5.threads == s.threads[t := Thread(s.threads[t].owned - {x}, Rest)];
    assert StepsOn(t, run[0], run[1]) && StepsOn(t, run[1], run[2]) && StepsOn(t, run[2], run[3]);
    assert StepsOn(t, run[3], run[4]) && StepsOn(t, run[4], run[5]);
  }
}
