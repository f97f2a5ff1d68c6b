/**
 The loops of `src/ef_index.c` on the mapped words of the hash region: bucket `b` is the pair of words
 `2 * b` (key hash) and `2 * b + 1` (slot offset).
 */
module IndexTable {
  import opened Base
  import opened RobinHood
  import opened RobinHoodPut
  import opened RobinHoodRemove

  /** The table held by the first `2 * n` words. */
  ghost function Table(m: seq<Word>, n: nat): (t: seq<Entry>)
    requires 2 * n <= |m|
    ensures |t| == n
  {
    seq(n, b requires 0 <= b < n => Entry(m[2 * b], m[2 * b + 1]))
  }

  ghost predicate SameBeyond(m: seq<Word>, m': seq<Word>, from: nat) {
    |m| == |m'| && forall j: nat :: from <= j < |m| ==> m'[j] == m[j]
  }

  method LoadEntry(mem: array<Word>, b: nat) returns (e: Entry)
    requires 2 * b + 1 < mem.Length
    ensures e == Entry(mem[2 * b], mem[2 * b + 1])
  {
    var slot := mem[2 * b + 1];
    var key := mem[2 * b];
    e := Entry(key, slot);
  }

  method StoreEntry(mem: array<Word>, ghost n: nat, b: nat, e: Entry)
    requires b < n && 2 * n <= mem.Length
    modifies mem
    ensures Table(mem[..], n) == old(Table(mem[..], n))[b := e]
    ensures SameBeyond(old(mem[..]), mem[..], 2 * n)
  {
    mem[2 * b] := e.key;
    mem[2 * b + 1] := e.slot;
  }

  /** `ef_index_find_entry_unlocked`. */
  method FindEntry(mem: array<Word>, n: nat, key: Word) returns (err: Err, found: Entry)
    requires 2 * n <= mem.Length
    ensures n == 0 <==> err == NullArg
    ensures n > 0 ==> err == if Find(Table(mem[..], n), key).Some? then Ok else NotFound
    ensures err == Ok ==> Find(Table(mem[..], n), key) == Some(found)
  {
    found := EMPTY;
    if n == 0 {
      return NullArg, found;
    }
    ghost var t := Table(mem[..], n);
    var home := Home(n, key);
    var i := home;
    while i < home + n
      invariant home <= i <= home + n
      invariant FindFrom(t, key, i) == Find(t, key)
    {
      WrapIsRemainder(n, i);
      var e := LoadEntry(mem, i % n);
      if Empty(e) {
        return NotFound, found;
      }
      if e.key == key {
        return Ok, e;
      }
      i := i + 1;
    }
    return NotFound, found;
  }

  /** `ef_index_put_entry`. */
  method PutEntry(mem: array<Word>, n: nat, key: Word, slot: Word) returns (err: Err, added: bool)
    requires 2 * n <= mem.Length
    modifies mem
    ensures SameBeyond(old(mem[..]), mem[..], 2 * n)
    ensures n == 0 || !PowerOfTwo(n) ==>
              mem[..] == old(mem[..]) && !added && err == if n == 0 then NullArg else BadVersion
    ensures n > 0 && PowerOfTwo(n) ==>
              var r := Put(old(Table(mem[..], n)), key, slot);
              && Table(mem[..], n) == r.table
              && err == (if r.Stored? then Ok else IndexFull)
              && added == (r.Stored? && r.added)
  {
    added := false;
    if n == 0 {
      return NullArg, added;
    }
    PowerOfTwoTest(n);
    if And(n, n - 1) != 0 {
      return BadVersion, added;
    }
    err, added := PutLoop(mem, n, key, slot);
  }

  /** The loop of `ef_index_put_entry`. */
  method PutLoop(mem: array<Word>, n: nat, key: Word, slot: Word) returns (err: Err, added: bool)
    requires 2 * n <= mem.Length && n > 0
    modifies mem
    ensures SameBeyond(old(mem[..]), mem[..], 2 * n)
    ensures var r := Put(old(Table(mem[..], n)), key, slot);
      && Table(mem[..], n) == r.table
      && err == (if r.Stored? then Ok else IndexFull)
      && added == (r.Stored? && r.added)
  {
    var incoming := Entry(key, slot);
    var home: nat := Home(n, key);
    var i: nat := home;
    while i < home + n
      invariant home < n && i < 2 * n
      invariant SameBeyond(old(mem[..]), mem[..], 2 * n)
      invariant Rest(Table(mem[..], n), key, slot, incoming, home, i) == Put(old(Table(mem[..], n)), key, slot)
      decreases 2 * n - i
    {
      ghost var t := Table(mem[..], n);
      WrapIsRemainder(n, i);
      var b := i % n;
      var cur := LoadEntry(mem, b);
      if Empty(cur) {
        StoreEntry(mem, n, b, incoming);
        return Ok, true;
      }
      if cur.key == key {
        RestOverwrites(t, key, slot, incoming, home, i);
        StoreEntry(mem, n, b, Entry(key, slot));
        return Ok, false;
      }
      if Dist(n, home, b) > Dist(n, Home(n, cur.key), b) {
        RestSwaps(t, key, slot, incoming, home, i, t[b := incoming]);
        StoreEntry(mem, n, b, incoming);
        incoming := cur;
        home := Home(n, incoming.key);
      } else {
        RestPasses(t, key, slot, incoming, home, i);
      }
      i := i + 1;
    }
    return IndexFull, false;
  }

  /** `ef_index_remove_by_hash`, except for the entry counter. */
  method RemoveByHash(mem: array<Word>, n: nat, key: Word) returns (err: Err)
    requires 2 * n <= mem.Length
    modifies mem
    ensures SameBeyond(old(mem[..]), mem[..], 2 * n)
    ensures n == 0 ==> err == NullArg && mem[..] == old(mem[..])
    ensures n > 0 ==>
              var r := Remove(old(Table(mem[..], n)), key);
              && err == (if r.Some? then Ok else NotFound)
              && Table(mem[..], n) == (if r.Some? then r.value else old(Table(mem[..], n)))
  {
    if n == 0 {
      return NullArg;
    }
    ghost var t := Table(mem[..], n);
    var home := Home(n, key);
    var i := home;
    while i < home + n
      invariant home <= i <= home + n
      invariant mem[..] == old(mem[..])
      invariant RemoveFrom(t, key, i) == Remove(t, key)
    {
      WrapIsRemainder(n, i);
      var cur := LoadEntry(mem, i % n);
      if Empty(cur) {
        return NotFound;
      }
      if cur.key == key {
        ShiftBack(mem, n, i % n);
        return Ok;
      }
      i := i + 1;
    }
    return NotFound;
  }

  /** The shift loop: entries move back over the hole until one is home or the bucket is empty. */
  method ShiftBack(mem: array<Word>, n: nat, start: nat)
    requires start < n && 2 * n <= mem.Length
    modifies mem
    ensures SameBeyond(old(mem[..]), mem[..], 2 * n)
    ensures Table(mem[..], n) == Shift(old(Table(mem[..], n)), start)
  {
    var pos: nat := start;
    while true
      invariant pos < n
      invariant SameBeyond(old(mem[..]), mem[..], 2 * n)
      invariant Shift(Table(mem[..], n), pos) == Shift(old(Table(mem[..], n)), start)
      decreases Sum(Distances(Table(mem[..], n), pos))
    {
      ghost var t := Table(mem[..], n);
      WrapIsRemainder(n, pos + 1);
      var next: nat := (pos + 1) % n;
      var e := LoadEntry(mem, next);
      if Empty(e) || Dist(n, Home(n, e.key), next) == 0 {
        StoreEntry(mem, n, pos, EMPTY);
        return;
      }
      ShiftMeasure(t, pos);
      StoreEntry(mem, n, pos, e);
      pos := next;
    }
  }
}
