/**
 Slicing-by-4 CRC-32 (`src/ef_crc.c`) against the bit-at-a-time reflected CRC-32 of
 IEEE 802.3 (the code of section 8 of RFC 1952).
 */
module Crc32 {

  // ---------- Reference: the shift register, one bit at a time ----------

  const POLYNOMIAL: bv32 := 0xEDB88320

  function Xor(x: bv32, y: bv32): bv32 {
    x ^ y
  }

  predicate Odd(c: bv32) {
    c & 1 == 1
  }

  function Half(c: bv32): bv32 {
    c >> 1
  }

  /** Shift, and fold the polynomial in when a one falls out. */
  function Reduce<T>(odd: T -> bool, half: T -> T, xor: (T, T) -> T, p: T, c: T): T {
    if odd(c) then xor(half(c), p) else half(c)
  }

  /** One step of the reflected register. */
  function Bit(c: bv32): bv32 {
    Reduce(Odd, Half, Xor, POLYNOMIAL, c)
  }

  function Iterate<T>(f: T -> T, c: T, k: nat): T
    decreases k
  {
    if k == 0 then c else Iterate(f, f(c), k - 1)
  }

  /** Eight steps of the register: what one byte costs. */
  function Step(c: bv32): bv32 {
    Iterate(Bit, c, 8)
  }

  /** Absorb one byte: it is xored into the low end of the register, then the register steps. */
  function Absorb(step: bv32 -> bv32): (bv32, bv8) -> bv32 {
    (c: bv32, d: bv8) => step(WithByte(c, d))
  }

  function WithByte(c: bv32, d: bv8): bv32 {
    Xor(c, d as bv32)
  }

  function Fold<S, B>(absorb: (S, B) -> S, c: S, data: seq<B>): S
    decreases data
  {
    if data == [] then c else Fold(absorb, absorb(c, data[0]), data[1..])
  }

  /** The reference code, one bit at a time. */
  function Reference(c: bv32, data: seq<bv8>): bv32 {
    Fold(Absorb(Step), c, data)
  }

  // ---------- Laws of the register ----------

  lemma {:induction false} IterateHomomorphic<T(!new)>(f: T -> T, op: (T, T) -> T, x: T, y: T, k: nat)
    requires forall a, b :: f(op(a, b)) == op(f(a), f(b))
    ensures Iterate(f, op(x, y), k) == op(Iterate(f, x, k), Iterate(f, y, k))
    decreases k
  {
    if k > 0 {
      IterateHomomorphic(f, op, f(x), f(y), k - 1);
    }
  }

  ghost predicate Additive<T(!new)>(f: T -> T, xor: (T, T) -> T) {
    forall x, y :: f(xor(x, y)) == xor(f(x), f(y))
  }

  /** Reduction by `p` is additive where its parts are. */
  lemma ReduceSum<T>(odd: T -> bool, half: T -> T, xor: (T, T) -> T, p: T, x: T, y: T)
    requires odd(xor(x, y)) == (odd(x) != odd(y))
    requires half(xor(x, y)) == xor(half(x), half(y))
    requires xor(xor(half(x), p), xor(half(y), p)) == xor(half(x), half(y))
    requires xor(xor(half(x), p), half(y)) == xor(xor(half(x), half(y)), p)
    requires xor(half(x), xor(half(y), p)) == xor(xor(half(x), half(y)), p)
    ensures Reduce(odd, half, xor, p, xor(x, y))
         == xor(Reduce(odd, half, xor, p, x), Reduce(odd, half, xor, p, y))
  {
  }

  lemma OddSum(x: bv32, y: bv32)
    ensures Odd(Xor(x, y)) == (Odd(x) != Odd(y))
  {
  }

  lemma HalfSum(x: bv32, y: bv32)
    ensures Half(Xor(x, y)) == Xor(Half(x), Half(y))
  {
  }

  lemma XorCancels(a: bv32, b: bv32, p: bv32)
    ensures Xor(Xor(a, p), Xor(b, p)) == Xor(a, b)
  {
  }

  lemma XorCommutes(a: bv32, b: bv32)
    ensures Xor(a, b) == Xor(b, a)
  {
  }

  lemma XorPass(a: bv32, b: bv32, p: bv32, s: bv32, t: bv32)
    requires s == b ^ p && t == a ^ b
    ensures a ^ s == t ^ p
  {
  }

  lemma XorPassesOut(a: bv32, b: bv32, p: bv32)
    ensures Xor(a, Xor(b, p)) == Xor(Xor(a, b), p)
  {
    XorPass(a, b, p, Xor(b, p), Xor(a, b));
  }

  lemma XorMovesOut(a: bv32, b: bv32, p: bv32)
    ensures Xor(Xor(a, p), b) == Xor(Xor(a, b), p)
  {
    XorCommutes(Xor(a, p), b);
    XorPassesOut(b, a, p);
    XorCommutes(a, b);
  }

  lemma BitLinear(x: bv32, y: bv32, p: bv32)
    ensures Reduce(Odd, Half, Xor, p, Xor(x, y))
         == Xor(Reduce(Odd, Half, Xor, p, x), Reduce(Odd, Half, Xor, p, y))
  {
    OddSum(x, y);
    HalfSum(x, y);
    XorCancels(Half(x), Half(y), p);
    XorMovesOut(Half(x), Half(y), p);
    XorPassesOut(Half(x), Half(y), p);
    ReduceSum(Odd, Half, Xor, p, x, y);
  }

  /** The register is linear over xor: a byte step of a sum is the sum of the byte steps. */
  lemma StepAdditive()
    ensures Additive(Step, Xor)
  {
    forall a, b ensures Bit(Xor(a, b)) == Xor(Bit(a), Bit(b)) {
      BitLinear(a, b, POLYNOMIAL);
    }
    forall x, y ensures Step(Xor(x, y)) == Xor(Step(x), Step(y)) {
      IterateHomomorphic(Bit, Xor, x, y, 8);
    }
  }

  lemma Shifts(c: bv32)
    ensures Half(c >> 1) == c >> 2 && Half(c >> 2) == c >> 3 && Half(c >> 3) == c >> 4
    ensures Half(c >> 4) == c >> 5 && Half(c >> 5) == c >> 6 && Half(c >> 6) == c >> 7
    ensures Half(c >> 7) == c >> 8
  {
  }

  lemma Zeros(c: bv32)
    requires c & 0xFF == 0
    ensures !Odd(c) && !Odd(c >> 1) && !Odd(c >> 2) && !Odd(c >> 3)
    ensures !Odd(c >> 4) && !Odd(c >> 5) && !Odd(c >> 6) && !Odd(c >> 7)
  {
  }

  lemma Iterate8<T>(f: T -> T, c: T, c1: T, c2: T, c3: T, c4: T, c5: T, c6: T, c7: T, c8: T)
    requires f(c) == c1 && f(c1) == c2 && f(c2) == c3 && f(c3) == c4
    requires f(c4) == c5 && f(c5) == c6 && f(c6) == c7 && f(c7) == c8
    ensures Iterate(f, c, 8) == c8
  {
    assert Iterate(f, c, 8) == Iterate(f, c2, 6) == Iterate(f, c4, 4) == Iterate(f, c6, 2);
  }

  /** A register whose low byte is zero only shifts during a byte step. */
  ghost predicate ShiftsZeroByte(step: bv32 -> bv32) {
    forall c: bv32 :: c & 0xFF == 0 ==> step(c) == c >> 8
  }

  lemma StepShifts()
    ensures ShiftsZeroByte(Step)
  {
    forall c: bv32 | c & 0xFF == 0 ensures Step(c) == c >> 8 {
      Shifts(c);
      Zeros(c);
      Iterate8(Bit, c, c >> 1, c >> 2, c >> 3, c >> 4, c >> 5, c >> 6, c >> 7, c >> 8);
    }
  }

  /** The two laws a byte step needs for its tables to work. */
  ghost predicate ByteStep(step: bv32 -> bv32) {
    Additive(step, Xor) && ShiftsZeroByte(step)
  }

  // ---------- One byte at a time ----------

  lemma LowByteSplit(c: bv32)
    ensures c == Xor(c & 0xFFFF_FF00, c & 0xFF)
    ensures (c & 0xFFFF_FF00) & 0xFF == 0
    ensures (c & 0xFFFF_FF00) >> 8 == c >> 8
  {
  }

  /** The table step: a byte step is one lookup of the low byte and a shift. */
  lemma TableStep(step: bv32 -> bv32, c: bv32)
    requires ByteStep(step)
    ensures step(c) == Xor(c >> 8, step(c & 0xFF))
  {
    LowByteSplit(c);
  }

  // ---------- Four bytes at a time ----------

  lemma LiftedByteFacts(b: bv32)
    requires b <= 0xFF
    ensures (b << 8) & 0xFF == 0 && (b << 8) >> 8 == b
    ensures (b << 16) & 0xFF == 0 && (b << 16) >> 8 == b << 8
    ensures (b << 24) & 0xFF == 0 && (b << 24) >> 8 == b << 16
  {
  }

  /** A byte lifted by one, two or three bytes falls down unchanged in as many byte steps. */
  lemma LiftedByte(step: bv32 -> bv32, b: bv32)
    requires ByteStep(step) && b <= 0xFF
    ensures step(b << 8) == b
    ensures step(step(b << 16)) == b
    ensures step(step(step(b << 24))) == b
  {
    LiftedByteFacts(b);
  }

  function Or(x: bv32, y: bv32): bv32 {
    x | y
  }

  /** The little-endian word held by four bytes. */
  function Word(d0: bv8, d1: bv8, d2: bv8, d3: bv8): bv32 {
    Or(Or(Or(d0 as bv32, (d1 as bv32) << 8), (d2 as bv32) << 16), (d3 as bv32) << 24)
  }

  lemma JoinSecond(x: bv32, b: bv32)
    requires x <= 0xFF && b <= 0xFF
    ensures Or(x, b << 8) == Xor(x, b << 8) && Xor(x, b << 8) <= 0xFFFF
  {
  }

  lemma JoinThird(x: bv32, b: bv32)
    requires x <= 0xFFFF && b <= 0xFF
    ensures Or(x, b << 16) == Xor(x, b << 16) && Xor(x, b << 16) <= 0xFF_FFFF
  {
  }

  lemma JoinFourth(x: bv32, b: bv32)
    requires x <= 0xFF_FFFF && b <= 0xFF
    ensures Or(x, b << 24) == Xor(x, b << 24)
  {
  }

  lemma WordIsXor(d0: bv8, d1: bv8, d2: bv8, d3: bv8)
    ensures Word(d0, d1, d2, d3)
         == Xor(Xor(Xor(d0 as bv32, (d1 as bv32) << 8), (d2 as bv32) << 16), (d3 as bv32) << 24)
  {
    JoinSecond(d0 as bv32, d1 as bv32);
    JoinThird(Xor(d0 as bv32, (d1 as bv32) << 8), d2 as bv32);
    JoinFourth(Xor(Xor(d0 as bv32, (d1 as bv32) << 8), (d2 as bv32) << 16), d3 as bv32);
  }

  lemma Regroup(c: bv32, a: bv32, b: bv32, d: bv32, e: bv32)
    ensures Xor(Xor(Xor(Xor(c, a), b), d), e) == Xor(c, Xor(Xor(Xor(a, b), d), e))
  {
    XorPassesOut(c, a, b);
    XorPassesOut(c, Xor(a, b), d);
    XorPassesOut(c, Xor(Xor(a, b), d), e);
  }

  lemma WordSum(c: bv32, d0: bv8, d1: bv8, d2: bv8, d3: bv8)
    ensures Xor(Xor(Xor(Xor(c, d0 as bv32), (d1 as bv32) << 8), (d2 as bv32) << 16), (d3 as bv32) << 24)
         == Xor(c, Word(d0, d1, d2, d3))
  {
    WordIsXor(d0, d1, d2, d3);
    Regroup(c, d0 as bv32, (d1 as bv32) << 8, (d2 as bv32) << 16, (d3 as bv32) << 24);
  }

  /** The register after four bytes absorbed one by one. */
  function Four<S, B>(absorb: (S, B) -> S, c: S, d0: B, d1: B, d2: B, d3: B): S {
    absorb(absorb(absorb(absorb(c, d0), d1), d2), d3)
  }

  lemma FourUnfolded(step: bv32 -> bv32, c: bv32, d0: bv8, d1: bv8, d2: bv8, d3: bv8)
    ensures Four(Absorb(step), c, d0, d1, d2, d3)
         == step(Xor(step(Xor(step(Xor(step(Xor(c, d0 as bv32)), d1 as bv32)), d2 as bv32)), d3 as bv32))
  {
    var absorb := Absorb(step);
    var c1 := absorb(c, d0);
    var c2 := absorb(c1, d1);
    var c3 := absorb(c2, d2);
    assert WithByte(c, d0) == Xor(c, d0 as bv32);
    assert WithByte(c1, d1) == Xor(c1, d1 as bv32);
    assert WithByte(c2, d2) == Xor(c2, d2 as bv32);
    assert WithByte(c3, d3) == Xor(c3, d3 as bv32);
  }

  lemma WordStep(step: bv32 -> bv32, c: bv32, d0: bv8, d1: bv8, d2: bv8, d3: bv8)
    requires ByteStep(step)
    ensures step(Xor(step(Xor(step(Xor(step(Xor(c, d0 as bv32)), d1 as bv32)), d2 as bv32)), d3 as bv32))
         == step(step(step(step(Xor(c, Word(d0, d1, d2, d3))))))
  {
    LiftedByte(step, d1 as bv32);
    LiftedByte(step, d2 as bv32);
    LiftedByte(step, d3 as bv32);
    WordSum(c, d0, d1, d2, d3);
    AbsorbLate(step, Xor, Xor(c, d0 as bv32), d1 as bv32, d2 as bv32, d3 as bv32,
               (d1 as bv32) << 8, (d2 as bv32) << 16, (d3 as bv32) << 24, Xor(c, Word(d0, d1, d2, d3)));
  }

  /** Four bytes fed one by one equal one word xored in at once, followed by four byte steps. */
  lemma WordAtOnce(step: bv32 -> bv32, c: bv32, d0: bv8, d1: bv8, d2: bv8, d3: bv8)
    requires ByteStep(step)
    ensures Four(Absorb(step), c, d0, d1, d2, d3) == step(step(step(step(Xor(c, Word(d0, d1, d2, d3))))))
  {
    FourUnfolded(step, c, d0, d1, d2, d3);
    WordStep(step, c, d0, d1, d2, d3);
  }

  lemma AbsorbLate<T(!new)>(f: T -> T, xor: (T, T) -> T, x: T, b1: T, b2: T, b3: T, w1: T, w2: T, w3: T, y: T)
    requires Additive(f, xor)
    requires xor(xor(xor(x, w1), w2), w3) == y
    requires f(w1) == b1 && f(f(w2)) == b2 && f(f(f(w3))) == b3
    ensures f(xor(f(xor(f(xor(f(x), b1)), b2)), b3)) == f(f(f(f(y))))
  {
    var x2 := xor(x, w1);
    var x3 := xor(x2, w2);
    assert f(x2) == xor(f(x), b1);
    assert f(f(x3)) == xor(f(f(x2)), b2);
    assert f(f(f(y))) == xor(f(f(f(x3))), b3);
  }

  lemma SumOfFour<T(!new)>(f: T -> T, xor: (T, T) -> T, a: T, b: T, c: T, d: T)
    requires Additive(f, xor)
    ensures f(xor(xor(xor(a, b), c), d)) == xor(xor(xor(f(a), f(b)), f(c)), f(d))
  {
  }

  lemma SliceSum<T(!new)>(f: T -> T, xor: (T, T) -> T, c: T, w3: T, w2: T, w1: T, w0: T, b3: T, b2: T, b1: T)
    requires Additive(f, xor) && c == xor(xor(xor(w3, w2), w1), w0)
    requires f(f(f(w3))) == b3 && f(f(w2)) == b2 && f(w1) == b1
    ensures f(f(f(f(c)))) == xor(xor(xor(f(b3), f(f(b2))), f(f(f(b1)))), f(f(f(f(w0)))))
  {
    SumOfFour(f, xor, w3, w2, w1, w0);
    SumOfFour(f, xor, f(w3), f(w2), f(w1), f(w0));
    SumOfFour(f, xor, f(f(w3)), f(f(w2)), f(f(w1)), f(f(w0)));
    SumOfFour(f, xor, f(f(f(w3))), f(f(f(w2))), f(f(f(w1))), f(f(f(w0))));
  }

  predicate BytesOf(c: bv32, b3: bv32, b2: bv32, b1: bv32, b0: bv32) {
    b3 == (c >> 24) & 0xFF && b2 == (c >> 16) & 0xFF && b1 == (c >> 8) & 0xFF && b0 == c & 0xFF
  }

  lemma BytesSum(c: bv32, b3: bv32, b2: bv32, b1: bv32, b0: bv32)
    requires BytesOf(c, b3, b2, b1, b0)
    ensures b3 <= 0xFF && b2 <= 0xFF && b1 <= 0xFF && b0 <= 0xFF
    ensures c == Xor(Xor(Xor(b3 << 24, b2 << 16), b1 << 8), b0)
  {
  }

  /** The slicing identity: four byte steps are four independent lookups, one for each byte. */
  lemma SliceStep(step: bv32 -> bv32, c: bv32, b3: bv32, b2: bv32, b1: bv32, b0: bv32)
    requires ByteStep(step) && BytesOf(c, b3, b2, b1, b0)
    ensures step(step(step(step(c))))
         == Xor(Xor(Xor(step(b3), step(step(b2))), step(step(step(b1)))), step(step(step(step(b0)))))
  {
    BytesSum(c, b3, b2, b1, b0);
    SliceAt(step, c, b3, b2, b1, b0);
  }

  lemma SliceAt(step: bv32 -> bv32, c: bv32, b3: bv32, b2: bv32, b1: bv32, b0: bv32)
    requires ByteStep(step) && b3 <= 0xFF && b2 <= 0xFF && b1 <= 0xFF
    requires c == Xor(Xor(Xor(b3 << 24, b2 << 16), b1 << 8), b0)
    ensures step(step(step(step(c))))
         == Xor(Xor(Xor(step(b3), step(step(b2))), step(step(step(b1)))), step(step(step(step(b0)))))
  {
    LiftedByte(step, b3);
    LiftedByte(step, b2);
    LiftedByte(step, b1);
    SliceSum(step, Xor, c, b3 << 24, b2 << 16, b1 << 8, b0, b3, b2, b1);
  }

  lemma {:induction false} FoldConcat<S, B>(absorb: (S, B) -> S, c: S, a: seq<B>, b: seq<B>)
    ensures Fold(absorb, c, a + b) == Fold(absorb, Fold(absorb, c, a), b)
    decreases a
  {
    if a == [] {
      assert a + b == b;
    } else {
      assert (a + b)[0] == a[0] && (a + b)[1..] == a[1..] + b;
      FoldConcat(absorb, absorb(c, a[0]), a[1..], b);
    }
  }

  lemma FoldOne<S, B>(absorb: (S, B) -> S, c: S, data: seq<B>, pos: nat)
    requires pos < |data|
    ensures Fold(absorb, c, data[pos..]) == Fold(absorb, absorb(c, data[pos]), data[pos + 1..])
  {
    assert data[pos..][1..] == data[pos + 1..];
  }

  lemma FoldFour<S, B>(absorb: (S, B) -> S, c: S, data: seq<B>, pos: nat)
    requires pos + 4 <= |data|
    ensures Fold(absorb, c, data[pos..])
         == Fold(absorb, Four(absorb, c, data[pos], data[pos + 1], data[pos + 2], data[pos + 3]), data[pos + 4..])
  {
    FoldOne(absorb, c, data, pos);
    var c1 := absorb(c, data[pos]);
    FoldOne(absorb, c1, data, pos + 1);
    var c2 := absorb(c1, data[pos + 1]);
    FoldOne(absorb, c2, data, pos + 2);
    FoldOne(absorb, absorb(c2, data[pos + 2]), data, pos + 3);
  }

  /** Updating over a concatenation is updating over its parts in turn. */
  lemma ReferenceConcat(c: bv32, a: seq<bv8>, b: seq<bv8>)
    ensures Reference(c, a + b) == Reference(Reference(c, a), b)
  {
    FoldConcat(Absorb(Step), c, a, b);
  }

  // ---------- The tables and the update loop ----------

  /** Entry `i` of the table holds `f(i)`, for every index below the bound. */
  ghost predicate FilledTo(t: array<bv32>, f: bv32 -> bv32, bound: nat)
    reads t
    requires t.Length == 256 && bound <= 256
  {
    forall i: nat :: i < bound ==> t[i] == f(i as bv32)
  }

  ghost predicate TableOf(t: array<bv32>, f: bv32 -> bv32)
    reads t
  {
    t.Length == 256 && FilledTo(t, f, 256)
  }

  lemma ByteIndex(b: bv32)
    requires b <= 0xFF
    ensures b as nat < 256 && (b as nat) as bv32 == b
  {
  }

  function Twice<T>(f: T -> T): T -> T {
    x => f(f(x))
  }

  function Thrice<T>(f: T -> T): T -> T {
    x => f(f(f(x)))
  }

  function FourTimes<T>(f: T -> T): T -> T {
    x => f(f(f(f(x))))
  }

  method LookUp(t: array<bv32>, ghost f: bv32 -> bv32, c: bv32) returns (r: bv32)
    requires TableOf(t, f)
    ensures r == f(c & 0xFF)
  {
    assert c & 0xFF <= 0xFF;
    ByteIndex(c & 0xFF);
    r := t[(c & 0xFF) as nat];
  }

  lemma {:induction false} IterateLast<T>(f: T -> T, c: T, k: nat)
    ensures Iterate(f, c, k + 1) == f(Iterate(f, c, k))
    decreases k
  {
    if k > 0 {
      IterateLast(f, f(c), k - 1);
    }
  }

  method ShiftOnce(c: bv32) returns (r: bv32)
    ensures r == Bit(c)
  {
    if c & 1 != 0 {
      assert c & 1 == 1;
      r := (c >> 1) ^ 0xEDB88320;
    } else {
      r := c >> 1;
    }
  }

  /** The inner loop of the table construction. */
  method TableEntry(b: bv32) returns (crc: bv32)
    ensures crc == Step(b)
  {
    crc := b;
    var j := 0;
    while j < 8
      invariant j <= 8
      invariant crc == Iterate(Bit, b, j)
    {
      IterateLast(Bit, b, j);
      crc := ShiftOnce(crc);
      j := j + 1;
    }
  }

  /** One table step, on a register that already has its byte. */
  method StepByTable(table: array<bv32>, ghost step: bv32 -> bv32, crc: bv32) returns (r: bv32)
    requires ByteStep(step) && TableOf(table, step)
    ensures r == step(crc)
  {
    var low := LookUp(table, step, crc);
    TableStep(step, crc);
    r := Xor(crc >> 8, low);
  }

  /** The chain of table steps that fills one row of the four slices. */
  method SliceRow(table: array<bv32>, ghost step: bv32 -> bv32, i: nat)
    returns (c0: bv32, c1: bv32, c2: bv32, c3: bv32)
    requires i < 256 && ByteStep(step) && TableOf(table, step)
    ensures c0 == step(i as bv32) && c1 == step(c0) && c2 == step(c1) && c3 == step(c2)
  {
    c0 := table[i];
    c1 := StepByTable(table, step, c0);
    c2 := StepByTable(table, step, c1);
    c3 := StepByTable(table, step, c2);
  }

  method Store(t: array<bv32>, ghost f: bv32 -> bv32, i: nat, v: bv32)
    requires t.Length == 256 && i < 256 && FilledTo(t, f, i) && v == f(i as bv32)
    modifies t
    ensures FilledTo(t, f, i + 1)
  {
    t[i] := v;
  }

  /** The five static tables and the flag that says they have been filled. */
  class Tables {
    const table: array<bv32>
    const slice0: array<bv32>
    const slice1: array<bv32>
    const slice2: array<bv32>
    const slice3: array<bv32>
    var tableInit: bool

    /** The tables are five separate ones. */
    ghost predicate Separate() {
      && table.Length == slice0.Length == slice1.Length == slice2.Length == slice3.Length == 256
      && table != slice0 && table != slice1 && table != slice2 && table != slice3
      && slice0 != slice1 && slice0 != slice2 && slice0 != slice3
      && slice1 != slice2 && slice1 != slice3 && slice2 != slice3
    }

    /** The tables are right once they have been filled. */
    ghost predicate Valid()
      reads this, table, slice0, slice1, slice2, slice3
    {
      Separate() && (tableInit ==> Filled(Step))
    }

    ghost predicate Filled(step: bv32 -> bv32)
      reads table, slice0, slice1, slice2, slice3
    {
      && TableOf(table, step)
      && TableOf(slice0, step)
      && TableOf(slice1, Twice(step))
      && TableOf(slice2, Thrice(step))
      && TableOf(slice3, FourTimes(step))
    }

    constructor ()
      ensures Separate() && !tableInit
    {
      tableInit := false;
      table := new bv32[256];
      slice0 := new bv32[256];
      slice1 := new bv32[256];
      slice2 := new bv32[256];
      slice3 := new bv32[256];
    }

    method FillTable()
      requires Valid()
      modifies table
      ensures TableOf(table, Step)
    {
      var i := 0;
      while i < 256
        invariant i <= 256
        invariant FilledTo(table, Step, i)
      {
        var crc := TableEntry(i as bv32);
        Store(table, Step, i, crc);
        i := i + 1;
      }
    }

    method FillSlices(ghost step: bv32 -> bv32)
      requires Valid() && ByteStep(step) && TableOf(table, step)
      modifies slice0, slice1, slice2, slice3
      ensures Filled(step)
    {
      var i := 0;
      while i < 256
        invariant i <= 256
        invariant TableOf(table, step)
        invariant FilledTo(slice0, step, i)
        invariant FilledTo(slice1, Twice(step), i)
        invariant FilledTo(slice2, Thrice(step), i)
        invariant FilledTo(slice3, FourTimes(step), i)
      {
        var c0, c1, c2, c3 := SliceRow(table, step, i);
        Store(slice0, step, i, c0);
        Store(slice1, Twice(step), i, c1);
        Store(slice2, Thrice(step), i, c2);
        Store(slice3, FourTimes(step), i, c3);
        i := i + 1;
      }
    }

    method EnsureInit()
      requires Valid()
      modifies this, table, slice0, slice1, slice2, slice3
      ensures Valid() && tableInit
    {
      if !tableInit {
        FillTable();
        StepAdditive();
        StepShifts();
        FillSlices(Step);
        tableInit := true;
      }
    }

    /** The two loops of the update, for any step that the tables hold. */
    method Run(ghost step: bv32 -> bv32, start: bv32, data: seq<bv8>) returns (crc: bv32)
      requires ByteStep(step) && Filled(step)
      ensures crc == Fold(Absorb(step), start, data)
    {
      crc := start;
      var pos := 0;
      while |data| - pos >= 4
        invariant 0 <= pos <= |data|
        invariant Fold(Absorb(step), crc, data[pos..]) == Fold(Absorb(step), start, data)
      {
        FoldFour(Absorb(step), crc, data, pos);
        crc := FourBytes(step, crc, data[pos], data[pos + 1], data[pos + 2], data[pos + 3]);
        pos := pos + 4;
      }
      while pos < |data|
        invariant 0 <= pos <= |data|
        invariant Fold(Absorb(step), crc, data[pos..]) == Fold(Absorb(step), start, data)
      {
        FoldOne(Absorb(step), crc, data, pos);
        crc := StepByTable(table, step, WithByte(crc, data[pos]));
        pos := pos + 1;
      }
    }

    /** One round of the word loop is four rounds of the byte loop. */
    method FourBytes(ghost step: bv32 -> bv32, c: bv32, d0: bv8, d1: bv8, d2: bv8, d3: bv8) returns (r: bv32)
      requires ByteStep(step) && Filled(step)
      ensures r == Four(Absorb(step), c, d0, d1, d2, d3)
    {
      WordAtOnce(step, c, d0, d1, d2, d3);
      r := FourLookups(step, Xor(c, Word(d0, d1, d2, d3)));
    }

    method FourLookups(ghost step: bv32 -> bv32, c: bv32) returns (r: bv32)
      requires ByteStep(step) && Filled(step)
      ensures r == step(step(step(step(c))))
    {
      var l0 := LookUp(slice0, step, c >> 24);
      var l1 := LookUp(slice1, Twice(step), c >> 16);
      var l2 := LookUp(slice2, Thrice(step), c >> 8);
      var l3 := LookUp(slice3, FourTimes(step), c);
      SliceStep(step, c, (c >> 24) & 0xFF, (c >> 16) & 0xFF, (c >> 8) & 0xFF, c & 0xFF);
      r := Xor(Xor(Xor(l0, l1), l2), l3);
    }

    /** `ef_crc32_update_slice4`: the fast form computes the bit-at-a-time code. */
    method Update(start: bv32, data: seq<bv8>) returns (crc: bv32)
      requires Valid()
      modifies this, table, slice0, slice1, slice2, slice3
      ensures Valid()
      ensures crc == Reference(start, data)
    {
      EnsureInit();
      StepAdditive();
      StepShifts();
      crc := Run(Step, start, data);
    }

    /** `ef_crc32`. */
    method Of(data: seq<bv8>) returns (crc: bv32)
      requires Valid()
      modifies this, table, slice0, slice1, slice2, slice3
      ensures Valid()
      ensures crc == Xor(Reference(0xFFFF_FFFF, data), 0xFFFF_FFFF)
    {
      crc := Update(0xFFFF_FFFF, data);
      crc := Xor(crc, 0xFFFF_FFFF);
    }
  }
}
