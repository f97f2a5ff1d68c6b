/**
 Backward-shift deletion (`ef_index_remove_by_hash`). The shift loop ends on every ordered table, even a
 full one, keeps the ordering, and removes exactly the key.
 */
module RobinHoodRemove {
  import opened Base
  import opened RobinHood

  // ---------- A measure for the shift loop ----------

  function Sum(s: seq<nat>): nat {
    if s == [] then 0 else Sum(s[..|s| - 1]) + s[|s| - 1]
  }

  lemma {:induction false} SumUpdate(s: seq<nat>, i: nat, v: nat)
    requires i < |s|
    ensures Sum(s[i := v]) == Sum(s) - s[i] + v
  {
    var last := |s| - 1;
    if i == last {
      assert s[i := v][..last] == s[..last];
    } else {
      assert s[i := v][..last] == s[..last][i := v];
      SumUpdate(s[..last], i, v);
    }
  }

  /** Probe distances of all entries except the one in bucket `hole`, which is dead. */
  ghost function Distances(t: seq<Entry>, hole: nat): seq<nat> {
    seq(|t|, b requires 0 <= b < |t| => if b == hole || Empty(t[b]) then 0 else D(t, b))
  }

  function Next(n: nat, b: nat): (c: nat)
    requires b < n
    ensures c < n
  {
    Wrap(n, b + 1)
  }

  lemma ShiftMeasure(t: seq<Entry>, hole: nat)
    requires hole < |t| && !Empty(t[Next(|t|, hole)]) && D(t, Next(|t|, hole)) > 0 && hole != Next(|t|, hole)
    ensures Sum(Distances(t[hole := t[Next(|t|, hole)]], Next(|t|, hole))) < Sum(Distances(t, hole))
  {
    var b := Next(|t|, hole);
    var s := Distances(t, hole);
    var t' := t[hole := t[b]];
    assert D(t', hole) == D(t, b) - 1;
    var cleared: seq<nat> := s[b := 0];
    assert Distances(t', b) == cleared[hole := D(t', hole)];
    SumUpdate(s, b, 0);
    SumUpdate(cleared, hole, D(t', hole));
  }

  // ---------- The loops ----------

  /** The shift loop, with its hole at bucket `hole`. */
  ghost function Shift(t: seq<Entry>, hole: nat): (r: seq<Entry>)
    requires hole < |t|
    ensures |r| == |t|
    decreases Sum(Distances(t, hole))
  {
    var b := Next(|t|, hole);
    if Empty(t[b]) || D(t, b) == 0 then t[hole := EMPTY]
    else
      ShiftMeasure(t, hole);
      Shift(t[hole := t[b]], b)
  }

  /** The search loop at unrolled index `i`; `None` is the not-found result. */
  ghost function RemoveFrom(t: seq<Entry>, key: Word, i: nat): (r: Option<seq<Entry>>)
    requires |t| > 0 && Home(|t|, key) <= i <= Home(|t|, key) + |t|
    ensures r.Some? ==> |r.value| == |t|
    decreases Home(|t|, key) + |t| - i
  {
    if i == Home(|t|, key) + |t| then None
    else
      var b := Wrap(|t|, i);
      if Empty(t[b]) then None
      else if t[b].key == key then Some(Shift(t, b))
      else RemoveFrom(t, key, i + 1)
  }

  ghost function Remove(t: seq<Entry>, key: Word): (r: Option<seq<Entry>>)
    requires |t| > 0
    ensures r.Some? ==> |r.value| == |t|
  {
    RemoveFrom(t, key, Home(|t|, key))
  }

  // ---------- Correctness of the shift ----------

  /** The ordering of a table whose bucket `hole` is dead, and may be filled from the bucket after it. */
  ghost predicate HoleSettled(t: seq<Entry>, hole: nat, b: nat)
    requires hole < |t| && b < |t|
  {
    || D(t, b) == 0
    || (Pred(|t|, b) != hole && !Empty(t[Pred(|t|, b)]) && D(t, b) <= D(t, Pred(|t|, b)) + 1)
    || (Pred(|t|, b) == hole
        && (D(t, b) == 1 || (!Empty(t[Pred(|t|, hole)]) && D(t, b) <= D(t, Pred(|t|, hole)) + 2)))
  }

  ghost predicate HoleOrdered(t: seq<Entry>, hole: nat) {
    && hole < |t|
    && forall b: nat {:trigger HoleSettled(t, hole, b)} ::
         b < |t| && b != hole && !Empty(t[b]) ==> HoleSettled(t, hole, b)
  }

  lemma OpenHole(t: seq<Entry>, hole: nat)
    requires Ordered(t) && hole < |t| && !Empty(t[hole])
    ensures HoleOrdered(t, hole)
  {
    assert Settled(t, hole);
    forall b: nat | b < |t| && b != hole && !Empty(t[b])
      ensures HoleSettled(t, hole, b)
    {
      assert Settled(t, b);
    }
  }

  lemma MoveHole(t: seq<Entry>, hole: nat)
    requires HoleOrdered(t, hole)
    requires var b := Next(|t|, hole); !Empty(t[b]) && D(t, b) > 0 && b != hole
    ensures HoleOrdered(t[hole := t[Next(|t|, hole)]], Next(|t|, hole))
  {
    var b := Next(|t|, hole);
    var t' := t[hole := t[b]];
    assert HoleSettled(t, hole, b);
    assert D(t', hole) == D(t, b) - 1;
    forall c: nat | c < |t'| && c != b && !Empty(t'[c])
      ensures HoleSettled(t', b, c)
    {
      if c != hole {
        assert HoleSettled(t, hole, c);
        assert D(t', c) == D(t, c);
      }
    }
  }

  lemma CloseHole(t: seq<Entry>, hole: nat)
    requires HoleOrdered(t, hole)
    requires var b := Next(|t|, hole); Empty(t[b]) || D(t, b) == 0
    ensures Ordered(t[hole := EMPTY])
  {
    var t' := t[hole := EMPTY];
    forall b: nat | b < |t'| && !Empty(t'[b])
      ensures Settled(t', b)
    {
      assert HoleSettled(t, hole, b);
    }
  }

  lemma MoveContents(t: seq<Entry>, hole: nat, b: nat)
    requires hole < |t| && b < |t| && hole != b && Unique(t[hole := EMPTY])
    ensures Unique(t[hole := t[b]][b := EMPTY])
    ensures Contents(t[hole := t[b]][b := EMPTY]) == Contents(t[hole := EMPTY])
  {
    var u := t[hole := EMPTY];
    var u1 := u[b := EMPTY];
    var u2 := u1[hole := t[b]];
    assert t[hole := t[b]][b := EMPTY] == u2;
    ReplaceUnique(u, b, EMPTY);
    ReplaceContents(u, b, EMPTY);
    if !Empty(t[b]) {
      assert Holds(u, t[b].key, b);
      forall c: nat ensures !Holds(u1, t[b].key, c) {
        assert c != b ==> (Holds(u1, t[b].key, c) <==> Holds(u, t[b].key, c));
      }
      ContentsHas(u, t[b].key, b);
    }
    ReplaceUnique(u1, hole, t[b]);
    ReplaceContents(u1, hole, t[b]);
  }

  lemma {:induction false} ShiftCorrect(t: seq<Entry>, hole: nat)
    requires HoleOrdered(t, hole) && Unique(t[hole := EMPTY])
    ensures WellFormed(Shift(t, hole))
    ensures Contents(Shift(t, hole)) == Contents(t[hole := EMPTY])
    decreases Sum(Distances(t, hole))
  {
    var b := Next(|t|, hole);
    if Empty(t[b]) || D(t, b) == 0 {
      CloseHole(t, hole);
    } else {
      ShiftMeasure(t, hole);
      MoveHole(t, hole);
      MoveContents(t, hole, b);
      ShiftCorrect(t[hole := t[b]], b);
    }
  }

  lemma {:induction false} RemoveFromCorrect(t: seq<Entry>, key: Word, i: nat)
    requires |t| > 0 && WellFormed(t)
    requires Home(|t|, key) <= i <= Home(|t|, key) + |t|
    requires forall k: nat :: Home(|t|, key) <= k < i ==> !Holds(t, key, Wrap(|t|, k))
    ensures var r := RemoveFrom(t, key, i);
      && (r.None? <==> key !in Contents(t))
      && (r.Some? ==> WellFormed(r.value) && Contents(r.value) == Contents(t) - {key})
    decreases Home(|t|, key) + |t| - i
  {
    if i == Home(|t|, key) + |t| {
      LapMeansAbsent(t, key);
      ContentsLacks(t, key);
    } else {
      var b := Wrap(|t|, i);
      if Empty(t[b]) {
        StopMeansAbsent(t, key, i);
        ContentsLacks(t, key);
      } else if t[b].key == key {
        ContentsHas(t, key, b);
        ReplaceUnique(t, b, EMPTY);
        ReplaceContents(t, b, EMPTY);
        OpenHole(t, b);
        ShiftCorrect(t, b);
      } else {
        RemoveFromCorrect(t, key, i + 1);
      }
    }
  }

  /** Removal finds the key exactly when the map has it, and then leaves an ordered table for the map without it. */
  lemma RemoveCorrect(t: seq<Entry>, key: Word)
    requires |t| > 0 && WellFormed(t)
    ensures var r := Remove(t, key);
      && (r.None? <==> key !in Contents(t))
      && (r.Some? ==> WellFormed(r.value) && Contents(r.value) == Contents(t) - {key})
  {
    RemoveFromCorrect(t, key, Home(|t|, key));
  }
}
