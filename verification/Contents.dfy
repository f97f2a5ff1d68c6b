/** What the slots hold: the bytes behind each head, and the messages in the queue. */
module Contents {
  import opened Base
  import opened Slots
  import opened Heaps

  ghost function PayloadOf(slots: seq<Slot>, x: nat): seq<Byte> {
    if x < |slots| then slots[x].payload else []
  }

  /** The payloads of the slots of `l`, one after the other. */
  ghost function Bytes(slots: seq<Slot>, l: seq<nat>): seq<Byte> {
    if l == [] then [] else PayloadOf(slots, l[0]) + Bytes(slots, l[1..])
  }

  /** Everything stored under head `x`: its own payload and those of its overflow chain. */
  ghost function Stored(h: Heap, sh: Shape, x: nat): seq<Byte>
    requires x in sh.chains
  {
    PayloadOf(h.slots, x) + Bytes(h.slots, sh.chains[x])
  }

  /** The message in the payload of a queue slot: a length byte and so many bytes. */
  ghost function Message(payload: seq<Byte>): seq<Byte> {
    if payload == [] || payload[0] + 1 > |payload| then [] else payload[1..1 + payload[0]]
  }

  /** The messages after the dummy, first to last. */
  ghost function Messages(slots: seq<Slot>, q: seq<nat>): seq<seq<Byte>> {
    if |q| <= 1 then [] else seq(|q| - 1, i requires 0 <= i < |q| - 1 => Message(PayloadOf(slots, q[i + 1])))
  }

  /** The same slots and the same bytes under head `y` as before. */
  ghost predicate Same(h: Heap, sh: Shape, h': Heap, sh': Shape, y: nat) {
    && y in sh.chains && y in sh'.chains
    && sh'.chains[y] == sh.chains[y] && Stored(h', sh', y) == Stored(h, sh, y)
  }

  /** What the heads outside `a` hold stays, and no other heads come or go. */
  ghost predicate OthersKept(h: Heap, sh: Shape, h': Heap, sh': Shape, a: set<nat>) {
    && (forall y: nat :: y in sh.chains && y !in a ==> Same(h, sh, h', sh', y))
    && (forall y: nat :: y in sh'.chains && y !in a ==> y in sh.chains)
  }

  ghost predicate MessagesKept(h: Heap, sh: Shape, h': Heap, sh': Shape) {
    Messages(h'.slots, sh'.queue) == Messages(h.slots, sh.queue)
  }

  lemma SameTrans(h: Heap, sh: Shape, h1: Heap, sh1: Shape, h2: Heap, sh2: Shape, y: nat)
    requires Same(h, sh, h1, sh1, y) && Same(h1, sh1, h2, sh2, y)
    ensures Same(h, sh, h2, sh2, y)
  {
  }

  lemma KeptTrans(h: Heap, sh: Shape, h1: Heap, sh1: Shape, h2: Heap, sh2: Shape, a: set<nat>, b: set<nat>)
    requires OthersKept(h, sh, h1, sh1, a) && OthersKept(h1, sh1, h2, sh2, b)
    ensures OthersKept(h, sh, h2, sh2, a + b)
  {
    forall y: nat | y in sh.chains && y !in a + b ensures Same(h, sh, h2, sh2, y) {
      SameTrans(h, sh, h1, sh1, h2, sh2, y);
    }
  }

  lemma KeptTwice(h: Heap, sh: Shape, h1: Heap, sh1: Shape, h2: Heap, sh2: Shape, x: nat)
    requires OthersKept(h, sh, h1, sh1, {x}) && OthersKept(h1, sh1, h2, sh2, {x})
    ensures OthersKept(h, sh, h2, sh2, {x})
  {
    KeptTrans(h, sh, h1, sh1, h2, sh2, {x}, {x});
    assert {x} + {x} == {x};
  }

  lemma {:induction false} BytesFrame(slots: seq<Slot>, slots': seq<Slot>, l: seq<nat>)
    requires forall i: nat :: i < |l| ==> PayloadOf(slots', l[i]) == PayloadOf(slots, l[i])
    ensures Bytes(slots', l) == Bytes(slots, l)
    decreases l
  {
    if l != [] {
      BytesFrame(slots, slots', l[1..]);
    }
  }

  lemma {:induction false} BytesAppend(slots: seq<Slot>, l: seq<nat>, x: nat)
    ensures Bytes(slots, l + [x]) == Bytes(slots, l) + PayloadOf(slots, x)
    decreases l
  {
    if l == [] {
      assert l + [x] == [x];
      assert Bytes(slots, [x][1..]) == [];
    } else {
      assert (l + [x])[1..] == l[1..] + [x];
      BytesAppend(slots, l[1..], x);
    }
  }

  lemma {:induction false} BytesLength(slots: seq<Slot>, l: seq<nat>)
    requires forall i: nat :: i < |l| ==> |PayloadOf(slots, l[i])| == PAYLOAD_SIZE
    ensures |Bytes(slots, l)| == PAYLOAD_SIZE * |l|
    decreases l
  {
    if l != [] {
      BytesLength(slots, l[1..]);
    }
  }

  /** The payloads of all slots but `x`, `x` outside the queue and the chains of others, stay as they are. */
  ghost predicate PayloadsKeptBut(h: Heap, h': Heap, x: nat) {
    |h.slots| <= |h'.slots| && forall y: nat :: y < |h.slots| && y != x ==> h'.slots[y].payload == h.slots[y].payload
  }

  /** Only the payloads of `x` and of its chain may differ. */
  ghost predicate OwnOnly(h: Heap, sh: Shape, h': Heap, x: nat) {
    && |sh.place| == |h.slots| <= |h'.slots|
    && forall y: nat :: y < |h.slots| && y != x && sh.place[y] != Overflow(x) ==>
      h'.slots[y].payload == h.slots[y].payload
  }

  lemma KeepHeads(h: Heap, sh: Shape, h': Heap, sh': Shape, x: nat)
    requires ChainsOk(h, sh) && OwnOnly(h, sh, h', x)
    requires x < |h.slots| ==> !sh.place[x].Overflow?
    requires forall y: nat :: y in sh.chains && y != x ==> y in sh'.chains && sh'.chains[y] == sh.chains[y]
    requires forall y: nat :: y in sh'.chains && y != x ==> y in sh.chains
    ensures OthersKept(h, sh, h', sh', {x})
  {
    forall y: nat | y in sh.chains && y != x ensures Same(h, sh, h', sh', y) {
      assert ChainOk(h, sh, y) && OnePlace(sh.place, y, Head);
      forall i: nat | i < |sh.chains[y]|
        ensures PayloadOf(h'.slots, sh.chains[y][i]) == PayloadOf(h.slots, sh.chains[y][i])
      {
        assert sh.chains[y][i] in sh.chains[y] && OnePlace(sh.place, sh.chains[y][i], Overflow(y));
      }
      BytesFrame(h.slots, h'.slots, sh.chains[y]);
    }
  }

  lemma KeepMessages(h: Heap, sh: Shape, h': Heap, sh': Shape, x: nat)
    requires QueueOk(h, sh) && OwnOnly(h, sh, h', x) && sh'.queue == sh.queue
    requires x < |h.slots| ==> sh.place[x] != InQueue
    ensures MessagesKept(h, sh, h', sh')
  {
    var q := sh.queue;
    forall i: nat | 0 < i < |q| ensures PayloadOf(h'.slots, q[i]) == PayloadOf(h.slots, q[i]) {
      assert q[i] in q && OnePlace(sh.place, q[i], InQueue);
    }
  }

  /** A change that touches the payloads of `x` and its chain alone. */
  lemma KeepAll(c: Checksum, h: Heap, sh: Shape, h': Heap, sh': Shape, x: nat)
    requires Fits(c, h, sh) && OwnOnly(h, sh, h', x)
    requires x < |h.slots| ==> !sh.place[x].Overflow? && sh.place[x] != InQueue
    requires sh'.queue == sh.queue
    requires forall y: nat :: y in sh.chains && y != x ==> y in sh'.chains && sh'.chains[y] == sh.chains[y]
    requires forall y: nat :: y in sh'.chains && y != x ==> y in sh.chains
    ensures OthersKept(h, sh, h', sh', {x}) && MessagesKept(h, sh, h', sh')
  {
    Open(c, h, sh);
    KeepHeads(h, sh, h', sh', x);
    KeepMessages(h, sh, h', sh', x);
  }

  /** Slot `v` has been linked to the chain of `x`: what is stored there grows by its payload. */
  lemma StoredGrows(h: Heap, sh: Shape, h': Heap, sh': Shape, x: nat, v: nat)
    requires ChainsOk(h, sh) && |sh.place| == |h.slots| && PayloadsKeptBut(h, h', v) && x in sh.chains && x != v
    requires v < |h.slots| && !sh.place[v].Overflow?
    requires x in sh'.chains && sh'.chains[x] == sh.chains[x] + [v]
    ensures Stored(h', sh', x) == Stored(h, sh, x) + PayloadOf(h'.slots, v)
  {
    ChainApart(h, sh, h', x, v);
    BytesAppend(h'.slots, sh.chains[x], v);
    var a, b, d := PayloadOf(h.slots, x), Bytes(h.slots, sh.chains[x]), PayloadOf(h'.slots, v);
    assert a + (b + d) == (a + b) + d;
  }

  lemma OthersApart(h: Heap, sh: Shape, h': Heap, sh': Shape, x: nat, v: nat, y: nat)
    requires ChainsOk(h, sh) && |sh.place| == |h.slots| && PayloadsKeptBut(h, h', v)
    requires v < |h.slots| && !sh.place[v].Overflow?
    requires y in sh.chains && y != x && y != v && y in sh'.chains && sh'.chains[y] == sh.chains[y]
    ensures Same(h, sh, h', sh', y)
  {
    ChainApart(h, sh, h', y, v);
  }

  /** Linking slot `v` adds its payload to what head `x` stores, and changes nothing else that is stored. */
  lemma AttachStores(c: Checksum, h: Heap, sh: Shape, x: nat, v: nat, payload: seq<Byte>)
    requires Fits(c, h, sh) && x in sh.chains && v in sh.chains && v != x && sh.chains[v] == []
    requires |payload| == PAYLOAD_SIZE
    ensures v < |h.slots| && Last(x, sh.chains[x]) < |h.slots| && Last(x, sh.chains[x]) != v
    ensures var h', sh' := Attached(c, h, Last(x, sh.chains[x]), v, payload), AttachedShape(sh, x, v);
      && Stored(h', sh', x) == Stored(h, sh, x) + payload
      && MessagesKept(h, sh, h', sh')
      && (forall y: nat :: y in sh.chains && y != x && y != v ==> Same(h, sh, h', sh', y))
  {
    Open(c, h, sh);
    AttachChains(c, h, sh, x, v, payload);
    var h', sh' := Attached(c, h, Last(x, sh.chains[x]), v, payload), AttachedShape(sh, x, v);
    assert OnePlace(sh.place, v, Head);
    KeepMessages(h, sh, h', sh', v);
    StoredGrows(h, sh, h', sh', x, v);
    forall y: nat | y in sh.chains && y != x && y != v ensures Same(h, sh, h', sh', y) {
      OthersApart(h, sh, h', sh', x, v, y);
    }
  }

  /** A chain does not see the payload of a slot that is a head. */
  lemma ChainApart(h: Heap, sh: Shape, h': Heap, y: nat, v: nat)
    requires ChainsOk(h, sh) && |sh.place| == |h.slots| && PayloadsKeptBut(h, h', v) && y in sh.chains && y != v
    requires v < |h.slots| ==> !sh.place[v].Overflow?
    ensures PayloadOf(h'.slots, y) == PayloadOf(h.slots, y)
    ensures Bytes(h'.slots, sh.chains[y]) == Bytes(h.slots, sh.chains[y])
  {
    assert ChainOk(h, sh, y);
    forall i: nat | i < |sh.chains[y]|
      ensures PayloadOf(h'.slots, sh.chains[y][i]) == PayloadOf(h.slots, sh.chains[y][i])
    {
      assert sh.chains[y][i] in sh.chains[y] && OnePlace(sh.place, sh.chains[y][i], Overflow(y));
    }
    BytesFrame(h.slots, h'.slots, sh.chains[y]);
  }

  /** Everything stored under a head has the size of its slots. */
  lemma StoredLength(c: Checksum, h: Heap, sh: Shape, x: nat)
    requires SlotsOk(c, h, sh) && ChainsOk(h, sh) && x in sh.chains
    ensures |Stored(h, sh, x)| == PAYLOAD_SIZE * (1 + |sh.chains[x]|)
  {
    assert ChainOk(h, sh, x) && SlotOk(c, sh, x, h.slots[x]);
    forall i: nat | i < |sh.chains[x]| ensures |PayloadOf(h.slots, sh.chains[x][i])| == PAYLOAD_SIZE {
      var z := sh.chains[x][i];
      assert z in sh.chains[x] && OnePlace(sh.place, z, Overflow(x)) && SlotOk(c, sh, z, h.slots[z]);
    }
    BytesLength(h.slots, sh.chains[x]);
  }

  lemma MessageJoins(slots: seq<Slot>, slots': seq<Slot>, q: seq<nat>, x: nat)
    requires q != []
    requires forall i: nat :: 0 < i < |q| ==> PayloadOf(slots', q[i]) == PayloadOf(slots, q[i])
    ensures Messages(slots', q + [x]) == Messages(slots, q) + [Message(PayloadOf(slots', x))]
  {
    var r := q + [x];
    assert r[|q|] == x;
    assert forall i: nat :: 0 < i < |q| ==> r[i] == q[i];
  }

  /** A new message joins the others at the end. */
  lemma EnqueueMessages(c: Checksum, h: Heap, sh: Shape, x: nat)
    requires Fits(c, h, sh) && sh.queue != [] && x in sh.chains && sh.chains[x] == []
    requires x < |h.slots| && |h.slots[x].payload| == PAYLOAD_SIZE && h.slots[x].payload[0] < PAYLOAD_SIZE
    ensures var tail := sh.queue[|sh.queue| - 1];
      && tail < |h.slots| && tail != x
      && var h', sh' := Enqueued(c, h, tail, x), EnqueuedShape(sh, x);
         && Messages(h'.slots, sh'.queue) == Messages(h.slots, sh.queue) + [Message(h.slots[x].payload)]
         && OthersKept(h, sh, h', sh', {x})
  {
    Open(c, h, sh);
    EnqueueFits(c, h, sh, x);
    var h', sh' := Enqueued(c, h, sh.queue[|sh.queue| - 1], x), EnqueuedShape(sh, x);
    assert OnePlace(sh.place, x, Head);
    KeepHeads(h, sh, h', sh', x);
    var q := sh.queue;
    forall i: nat | 0 < i < |q| ensures PayloadOf(h'.slots, q[i]) == PayloadOf(h.slots, q[i]) {
      assert q[i] in q && OnePlace(sh.place, q[i], InQueue);
    }
    MessageJoins(h.slots, h'.slots, q, x);
  }

  /** A pop takes the first message away. */
  lemma DequeueMessages(c: Checksum, h: Heap, sh: Shape)
    requires Fits(c, h, sh) && |sh.queue| >= 2
    ensures var d, f := sh.queue[0], sh.queue[1];
      && d < |h.slots| && f < |h.slots| && d != f
      && var h', sh' := Dequeued(c, h, d, f), DequeuedShape(sh);
         && |Messages(h.slots, sh.queue)| > 0 && Messages(h.slots, sh.queue)[0] == Message(h.slots[f].payload)
         && Messages(h'.slots, sh'.queue) == Messages(h.slots, sh.queue)[1..]
         && f !in sh.chains && OthersKept(h, sh, h', sh', {f})
  {
    Open(c, h, sh);
    DequeueFits(c, h, sh);
    var d, f := sh.queue[0], sh.queue[1];
    var h', sh' := Dequeued(c, h, d, f), DequeuedShape(sh);
    var q, q' := sh.queue, sh'.queue;
    assert f in q && OnePlace(sh.place, f, InQueue);
    assert f !in sh.chains;
    KeepHeads(h, sh, h', sh', f);
    forall i: nat | 0 < i < |q'| ensures q'[i] == q[i + 1]
      && PayloadOf(h'.slots, q'[i]) == PayloadOf(h.slots, q[i + 1]) {
      assert q[i + 1] != f;
    }
    assert Messages(h'.slots, q') == Messages(h.slots, q)[1..];
  }
}
