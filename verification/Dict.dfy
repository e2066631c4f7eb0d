// lsd/dict.c: the open-addressing dictionary, changed in place.
module Dict {
  import opened Base
  import opened ProbeSeq
  import opened DictSizes
  import opened DictTable
  import Runs = DictRuns

  // struct _dict_
  class Dictionary {
    const hash: Key -> Word
    var fill: Word
    var used: Word
    var size: nat
    var table: array<Slot>
    ghost var bits: nat                      // size == 2^bits
    ghost var entries: map<Key, Option<Val>>

    ghost function Abs(): Runs.State
      reads this, table
    {
      Runs.State(table[..], bits, used, fill)
    }

    ghost predicate Shaped()
      reads this, table
    {
      Runs.Inv(Abs(), hash) && size == table.Length
    }

    ghost predicate Valid()
      reads this, table
    {
      Shaped() && Models(table[..], entries)
    }

    // dict_new
    constructor (h: Key -> Word)
      ensures Valid() && fresh(table) && hash == h
      ensures Abs() == Runs.New() && entries == map[] && used == fill == 0
      ensures size == 8 && forall i :: 0 <= i < 8 ==> table[i] == Empty
    {
      hash := h;
      size, used, fill := 8, 0, 0;
      table := new Slot[8](_ => Empty);
      bits, entries := MIN_BITS, map[];
      new;
      Runs.NewOk(h);
      assert table[..] == Runs.New().table;
    }

    // dict_lookup; the mask size - 1 is a remainder, since size is a power of two
    method Lookup(key: Key, h: Word) returns (r: nat)
      requires Shaped() && h == hash(key) && Halts(table[..], h, key)
      ensures r == DictTable.Lookup(table[..], h, key)
    {
      hide Runs.Inv, TableOk, Turn, Pow2;
      Sizes();
      ghost var t := table[..];
      ghost var stop: nat :| StopsAt(t, h, key, stop);
      LookupIs(t, h, key, stop);
      var i := h % size;
      assert At(t, h, 0) == t[i];
      var ep := table[i];
      if ep.Empty? {
        StopUnique(t, h, key, 0, stop);
        return i;
      }
      var free: Option<nat> := None;
      if ep.Dummy? {
        free := Some(i);
      } else {
        SameKeySameHash(i);
        if ep.hash == h && ep.key == key {
          StopUnique(t, h, key, 0, stop);
          return i;
        }
      }
      r := ProbeOn(key, h, i, free, stop);
    }

    // The loop of dict_lookup, from its first probe on
    method ProbeOn(key: Key, h: Word, first: nat, freeslot: Option<nat>, ghost stop: nat) returns (r: nat)
      requires Shaped() && h == hash(key) && StopsAt(table[..], h, key, stop) && stop > 0
      requires first == Probe(h, size, 0)
      requires freeslot == var m := FirstDummy(table[..], h, 1); if m == 0 then Some(first) else None
      ensures r == Probe(h, size, Chosen(table[..], h, stop))
    {
      hide Runs.Inv, TableOk, Turn, Pow2;
      Sizes();
      ghost var t := table[..];
      var i, free := first, freeslot;
      var perturb: nat := h;
      ghost var n: nat := 0;
      while true
        invariant n < stop && i == Probe(h, size, n) && perturb == Perturb(h, n)
        invariant free == var m := FirstDummy(t, h, n + 1); if m <= n then Some(Probe(h, size, m)) else None
        decreases stop - n
      {
        TurnIsProbe(h, bits, n);
        i := Turn(i, perturb, size);
        n := n + 1;
        assert At(t, h, n) == t[i];
        var ep := table[i];
        if ep.Empty? {
          StopUnique(t, h, key, n, stop);
          return if free == None then i else free.value;
        }
        if ep.Live? {
          SameKeySameHash(i);
        }
        if ep.Live? && ep.hash == h && ep.key == key {
          StopUnique(t, h, key, n, stop);
          return i;
        }
        if ep.Dummy? && free == None {
          free := Some(i);
        }
        perturb := perturb / 32;
        assert perturb == Perturb(h, n);
      }
    }

    lemma Sizes()
      requires Shaped()
      ensures size == table.Length == Pow2(bits) > 0 && bits <= MAX_BITS
    {
    }

    lemma SameKeySameHash(i: nat)
      requires Shaped() && i < size && table[i].Live?
      ensures table[i].hash == hash(table[i].key)
    {
      assert OnPath(table[..], hash, i);
    }

    // dict_add_p
    method AddP(key: Key, val: Option<Val>, copy: bool) returns (rc: int)
      requires Shaped() && Runs.PutReturns(Abs(), hash, key, val, copy)
      modifies this`fill, this`used, this`size, this`table, this`bits, table
      ensures rc == 0 && Shaped() && (table == old(table) || fresh(table))
      ensures Abs() == Runs.Settle(Runs.Put(old(Abs()), hash, key, val, copy), hash)
      ensures bits == old(bits) ==> table == old(table) && size == old(size)
      decreases MAX_BITS - bits, 1
    {
      hide Runs.Inv, TableOk, Pow2, Runs.ResizeReturns, Runs.Resize;
      ghost var d := Abs();
      Sizes();
      var h := hash(key);
      var slot := Lookup(key, h);
      var v := if copy && val == None then table[slot].Value() else val;
      table[slot] := Live(key, v, h);
      used := (used + 1) % WORD;
      fill := (fill + 1) % WORD;
      assert Abs() == Runs.Put(d, hash, key, val, copy);
      PutShaped(d, key, val, copy);
      rc := 0;
      if (3 * fill) % WORD >= (size * 2) % WORD {
        rc := Resize();
      }
    }

    lemma PutShaped(d: Runs.State, key: Key, val: Option<Val>, copy: bool)
      requires Runs.Inv(d, hash) && Halts(d.table, hash(key), key)
      ensures Runs.Inv(Runs.Put(d, hash, key, val, copy), hash)
    {
      Runs.PutInv(d, hash, key, val, copy);
    }

    // dict_resize
    method Resize() returns (rc: int)
      requires Shaped() && Runs.ResizeReturns(Abs())
      modifies this`fill, this`used, this`size, this`table, this`bits
      ensures rc == 0 && Shaped() && (table == old(table) || fresh(table))
      ensures Abs() == Runs.Resize(old(Abs()), hash)
      ensures bits == old(bits) ==> table == old(table) && size == old(size)
      decreases MAX_BITS - bits, 0
    {
      hide Runs.Inv, TableOk, Pow2, Runs.ResizeReturns;
      Sizes();
      ghost var d := Abs();
      Runs.ResizeSizes(d, hash);
      var newsize, b := NewSize();
      rc := 0;
      if newsize == size {
        return;
      }
      ghost var was := table[..];
      Reinsert(newsize, b);
      Runs.RebuildReady(was, |was|, b, hash);
    }

    // The new table and the re-insertion loop of dict_resize
    method Reinsert(newsize: nat, ghost b: nat)
      requires Shaped() && bits < b <= MAX_BITS && newsize == Pow2(b) && 2 * size <= newsize
      requires b == MAX_BITS ==> Count(table[..], false) < QUARTER
      modifies this`fill, this`used, this`size, this`table, this`bits
      ensures Shaped() && fresh(table) && bits == b
      ensures Abs() == Runs.Rebuild(old(table[..]), old(|table[..]|), b, hash)
      decreases MAX_BITS - b, 2
    {
      hide Runs.Inv, TableOk, Pow2, Runs.PutReturns, Count;
      Ready();
      var oldtable := table;
      var oldsize := size;
      table := new Slot[newsize](_ => Empty);
      size, used, fill := newsize, 0, 0;
      bits := b;
      ghost var was := oldtable[..];
      assert table[..] == seq(Pow2(b), _ => Empty);
      assert Abs() == Runs.Rebuild(was, 0, b, hash);
      for i := 0 to oldsize
        invariant fresh(table) && oldtable[..] == was && table != oldtable
        invariant Abs() == Runs.Rebuild(was, i, b, hash) && size == table.Length == newsize && bits == b
      {
        Runs.RebuildReady(was, i, b, hash);
        if oldtable[i].Live? {
          var _ := AddP(oldtable[i].key, oldtable[i].val, false);
        }
      }
      Runs.RebuildReady(was, oldsize, b, hash);
    }

    lemma Ready()
      requires Shaped()
      ensures TableOk(table[..], hash) && size == table.Length && MIN_BITS <= bits
    {
    }

    // The doubling loop of dict_resize: it ends, as the target is below 2^31.
    method NewSize() returns (newsize: nat, ghost b: nat)
      requires Shaped() && Target(size, used) < HALF
      ensures b == Grow(bits, Target(size, used)) <= MAX_BITS && newsize == Pow2(b)
      ensures newsize == size <==> b == bits
      ensures newsize > Target(size, used)
      ensures newsize != size ==> newsize <= 2 * Target(size, used)
    {
      hide Runs.Inv, TableOk;
      Sizes();
      newsize := size;
      b := bits;
      var factor := if size > BIG_SIZE then 2 else 4;
      ghost var target := Target(size, used);
      while newsize <= (factor * used) % WORD
        invariant newsize == Pow2(b) && bits <= b
        invariant Grow(b, target) == Grow(bits, target)
        decreases target - newsize
      {
        newsize := (newsize * 2) % WORD;
        b := b + 1;
      }
      GrowBounded(bits, target);
      if b > bits {
        Pow2Monotone(bits + 1, b);
      }
    }

    // dict_add.  None stands for the NULL pointer.
    method Add(key: Option<Key>, val: Option<Val>) returns (rc: int)
      requires Valid() && (key.Some? ==> Runs.Returns(Abs(), hash, Runs.OpAdd(key.value, val)))
      modifies this, table
      ensures Valid() && (table == old(table) || fresh(table))
      ensures key == None ==> rc == -1 && Abs() == old(Abs()) && entries == old(entries)
      ensures key.Some? ==> rc == 0 && Abs() == Runs.Add(old(Abs()), hash, key.value, val)
      ensures key.Some? ==> entries == Runs.SpecAdd(old(entries), key.value, val)
    {
      hide Runs.Inv, TableOk, Pow2, Models, Runs.SpecAdd, Runs.PutReturns, Runs.Settle;
      if key == None {
        return -1;
      }
      Runs.AddKeeps(Abs(), hash, key.value, val, entries);
      rc := AddP(key.value, val, true);
      entries := Runs.SpecAdd(entries, key.value, val);
    }

    // dict_get: defval is returned for a NULL key only
    method Get(key: Option<Key>, defval: Option<Val>) returns (val: Option<Val>)
      requires Valid() && (key.Some? ==> Halts(table[..], hash(key.value), key.value))
      ensures key == None ==> val == defval
      ensures key.Some? ==> val == if key.value in entries then entries[key.value] else None
    {
      hide Runs.Inv, TableOk, Pow2, Models;
      if key == None {
        return defval;
      }
      Sizes();
      Runs.GetIs(Abs(), hash, key.value, entries);
      var slot := Lookup(key.value, hash(key.value));
      return table[slot].Value();
    }

    // dict_del
    method Del(key: Option<Key>) returns (rc: int)
      requires Valid() && (key.Some? ==> Halts(table[..], hash(key.value), key.value))
      modifies this`used, this`entries, table
      ensures Valid()
      ensures rc == Runs.DelReturns(key) && (rc == -1 <==> key == None) && (rc == 0 <==> key.Some?)
      ensures key == None ==> Abs() == old(Abs()) && entries == old(entries)
      ensures key.Some? ==> Abs() == Runs.Del(old(Abs()), hash, key.value)
      ensures key.Some? ==> entries == old(entries) - {key.value}
    {
      hide Runs.Inv, TableOk, Pow2, Models;
      if key == None {
        return -1;
      }
      Sizes();
      Runs.DelKeeps(Abs(), hash, key.value, entries);
      var slot := Lookup(key.value, hash(key.value));
      table[slot] := Dummy;
      used := Dec(used);
      entries := entries - {key.value};
      rc := 0;
    }

    // dict_enumerate.  The slot is tested before the bound: overran says that the loop
    // has read the slot after the last, whatever it found there.
    method Enumerate(rank: int) returns (next: int, key: Option<Key>, val: Option<Val>, overran: bool)
      requires Valid()
      ensures rank < 0 ==> next == -1 && !overran
      ensures rank >= 0 ==> var n := NextLive(table[..], rank);
        if n < size
        then next == n + 1 && key == Some(table[n].key) && val == table[n].val && !overran
        else next == -1 && key == None && val == None && overran
    {
      key, val, overran := None, None, false;
      if rank < 0 {
        return -1, key, val, overran;
      }
      var i := rank;
      while true
        invariant rank <= i && NextLive(table[..], i) == NextLive(table[..], rank) && !overran
        decreases size - i
      {
        if i >= size {
          overran := true;
          break;
        }
        if table[i].Live? {
          break;
        }
        i := i + 1;
      }
      if i >= size {
        return -1, key, val, overran;
      }
      return i + 1, Some(table[i].key), table[i].val, overran;
    }
  }
}
