/** Result codes, machine words and cyclic arithmetic shared by every part of the model. */
module Base {

  /** The result codes of `enum ef_err` that the modelled operations return. */
  datatype Err =
    | Ok
    | NullArg
    | Oom
    | BadVersion
    | BadChecksum
    | FileSize
    | SlotId
    | Offset
    | PayloadLen
    | SlotFree
    | SlotBusy
    | SlotFull
    | NotFound
    | ChaseDepth
    | ChaseCycle
    | Grow
    | QueueEmpty
    | QueueBusy
    | IndexFull
    | IndexBusy
    | TxnBusy
    | TxnLogFull

  datatype Option<+T> = None | Some(value: T)

  const WORD: int := 0x1_0000_0000_0000_0000

  /** A 64-bit unsigned word. */
  type Word = w: int | 0 <= w < 0x1_0000_0000_0000_0000

  /** Addition of 64-bit words, which wraps around. */
  function AddWord(a: int, b: int): (r: Word)
    ensures 0 <= a + b < WORD ==> r == a + b
  {
    (a + b) % WORD
  }

  function Pow2(k: nat): (r: nat)
    ensures r > 0
  {
    if k == 0 then 1 else 2 * Pow2(k - 1)
  }

  ghost predicate PowerOfTwo(n: nat) {
    exists k: nat :: n == Pow2(k)
  }

  /** The bitwise and of two unsigned numbers. */
  function And(a: nat, b: nat): (r: nat)
    ensures r <= b
    decreases b
  {
    if b == 0 then 0 else 2 * And(a / 2, b / 2) + (if a % 2 == 1 && b % 2 == 1 then 1 else 0)
  }

  /** Masking with a power of two less one keeps the remainder. */
  lemma {:induction false} MaskIsRemainder(a: nat, k: nat)
    ensures And(a, Pow2(k) - 1) == a % Pow2(k)
  {
    if k > 0 {
      MaskIsRemainder(a / 2, k - 1);
      MaskStep(a, Pow2(k - 1));
    }
  }

  lemma MaskByHalves(a: nat, h: nat)
    requires h > 0
    ensures And(a, 2 * h - 1) == 2 * And(a / 2, h - 1) + a % 2
  {
    assert (2 * h - 1) / 2 == h - 1 && (2 * h - 1) % 2 == 1;
  }

  lemma MaskStep(a: nat, h: nat)
    requires h > 0 && And(a / 2, h - 1) == (a / 2) % h
    ensures And(a, 2 * h - 1) == a % (2 * h)
  {
    MaskByHalves(a, h);
    RemainderByHalves(a, h);
  }

  lemma RemainderByHalves(a: nat, h: nat)
    requires h > 0
    ensures a % (2 * h) == 2 * ((a / 2) % h) + a % 2
  {
    var q, r := (a / 2) / h, (a / 2) % h;
    assert a == 2 * (q * h + r) + a % 2;
    assert a == (2 * h) * q + (2 * r + a % 2) by {
      assert 2 * (q * h) == (2 * h) * q;
    }
    QuotientIsUnique(a, 2 * h, q, 2 * r + a % 2);
  }

  lemma QuotientIsUnique(a: nat, m: nat, q: nat, r: nat)
    requires m > 0 && a == m * q + r && r < m
    ensures a / m == q && a % m == r
  {
    var q', r' := a / m, a % m;
    assert a == m * q' + r';
    if q' < q {
      NextMultiple(m, q', q);
    } else if q' > q {
      NextMultiple(m, q, q');
    }
  }

  lemma NextMultiple(m: nat, a: nat, b: nat)
    requires a < b
    ensures m * a + m <= m * b
  {
    assert m * b - m * a == m * (b - a);
    assert m * (b - a) >= m * 1 by {
      assert m * (b - a) == m + m * (b - a - 1);
    }
  }

  lemma {:induction false} AndSelf(a: nat)
    ensures And(a, a) == a
  {
    if a > 0 {
      AndSelf(a / 2);
    }
  }

  /** The test `(n & (n - 1)) == 0` recognises the powers of two. */
  lemma {:induction false} PowerOfTwoTest(n: nat)
    requires n > 0
    ensures And(n, n - 1) == 0 <==> PowerOfTwo(n)
  {
    if n == 1 {
      assert n == Pow2(0);
    } else if n % 2 == 0 {
      var m := n / 2;
      PowerOfTwoTest(m);
      assert (n - 1) / 2 == m - 1 && And(n, n - 1) == 2 * And(m, m - 1);
      if PowerOfTwo(m) {
        var k: nat :| m == Pow2(k);
        assert n == Pow2(k + 1);
      }
      if PowerOfTwo(n) {
        var k: nat :| n == Pow2(k);
        assert m == Pow2(k - 1);
      }
    } else {
      AndSelf(n / 2);
      assert And(n, n - 1) == 2 * And(n / 2, n / 2);
      forall k: nat ensures n != Pow2(k) {
      }
    }
  }

  /** The remainder of `i` by `n`, on the two laps a probe can take. */
  function Wrap(n: nat, i: nat): (b: nat)
    requires 0 < n && i < 2 * n
    ensures b < n
  {
    if i < n then i else i - n
  }

  lemma WrapIsRemainder(n: nat, i: nat)
    requires 0 < n && i < 2 * n
    ensures Wrap(n, i) == i % n
  {
    if i >= n {
      QuotientIsUnique(i, n, 1, i - n);
    }
  }

  ghost predicate Distinct<T>(l: seq<T>) {
    forall i: nat, j: nat :: i < j < |l| ==> l[i] != l[j]
  }

  lemma SliceOfSlice<T>(s: seq<T>, a: nat, b: nat, i: nat, j: nat)
    requires a <= b <= |s| && i <= j <= b - a
    ensures s[a..b][i..j] == s[a + i..a + j]
  {
    var t := s[a..b];
    forall k: nat | k < j - i
      ensures t[i..j][k] == s[a + i..a + j][k]
    {
      assert t[i + k] == s[a + (i + k)];
    }
  }

  /** The numbers below `n`. */
  ghost function Below(n: nat): set<nat> {
    if n == 0 then {} else Below(n - 1) + {n - 1}
  }

  lemma {:induction false} BelowCount(n: nat)
    ensures |Below(n)| == n
    ensures forall x: nat :: x in Below(n) <==> x < n
  {
    if n > 0 {
      BelowCount(n - 1);
    }
  }

  lemma TailCount(j: nat, n: nat)
    requires j <= n
    ensures |Below(n) - Below(j)| == n - j
  {
    BelowCount(n);
    BelowCount(j);
    assert Below(n) == (Below(n) - Below(j)) + Below(j);
  }

  lemma SubsetCount<T>(a: set<T>, b: set<T>)
    requires a <= b
    ensures |a| <= |b|
  {
    assert b == a + (b - a);
  }
}
