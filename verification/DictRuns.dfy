// The operations of lsd/dict.c on table values, and whole runs of them.
module DictRuns {
  import opened Base
  import opened ProbeSeq
  import opened DictSizes
  import opened DictTable

  // struct _dict_, with size == 2^bits
  datatype State = State(table: seq<Slot>, bits: nat, used: Word, fill: Word)

  function New(): State {
    State(seq(8, _ => Empty), MIN_BITS, 0, 0)
  }

  // What dict_add_p stores: with copy, a NULL value leaves the slot's value alone.
  function Stored(was: Slot, val: Option<Val>, copy: bool): Option<Val> {
    if copy && val == None then was.Value() else val
  }

  // dict_add_p before its load test
  ghost function Put(d: State, hash: Key -> Word, key: Key, val: Option<Val>, copy: bool): (e: State)
    requires |d.table| > 0
    ensures |e.table| == |d.table|
  {
    var r := Lookup(d.table, hash(key), key);
    var s := Live(key, Stored(d.table[r], val, copy), hash(key));
    d.(table := d.table[r := s], used := Inc(d.used), fill := Inc(d.fill))
  }

  // The re-insertion loop of dict_resize, after n slots of the old table.
  ghost function Rebuild(was: seq<Slot>, n: nat, bits: nat, hash: Key -> Word): (d: State)
    requires n <= |was|
    ensures |d.table| == Pow2(bits) && d.bits == bits
  {
    if n == 0 then State(seq(Pow2(bits), _ => Empty), bits, 0, 0)
    else
      var d := Rebuild(was, n - 1, bits, hash);
      if was[n - 1].Live? then Put(d, hash, was[n - 1].key, was[n - 1].val, false) else d
  }

  // dict_resize
  ghost function Resize(d: State, hash: Key -> Word): (e: State)
    requires |d.table| > 0
    ensures |e.table| > 0
  {
    var bits := NewBits(d);
    if bits == d.bits then d else Rebuild(d.table, |d.table|, bits, hash)
  }

  function NewBits(d: State): nat {
    Grow(d.bits, Target(Pow2(d.bits), d.used))
  }

  // Its doubling loop ends, and so do those of its re-insertions: in a table of 2^31
  // slots every one of them resizes again, to no effect below 2^30 entries.
  predicate ResizeReturns(d: State) {
    && Target(Pow2(d.bits), d.used) < HALF
    && (d.bits < MAX_BITS && NewBits(d) == MAX_BITS ==> Count(d.table, false) < QUARTER)
  }

  // The load test of dict_add_p and what it leads to
  ghost function Settle(e: State, hash: Key -> Word): (f: State)
    requires |e.table| > 0
    ensures |f.table| > 0
  {
    if Loaded(e.fill, Pow2(e.bits)) then Resize(e, hash) else e
  }

  ghost predicate PutReturns(d: State, hash: Key -> Word, key: Key, val: Option<Val>, copy: bool)
    requires |d.table| > 0
  {
    && Halts(d.table, hash(key), key)
    && var e := Put(d, hash, key, val, copy);
       Loaded(e.fill, Pow2(e.bits)) ==> ResizeReturns(e)
  }

  // dict_add
  ghost function Add(d: State, hash: Key -> Word, key: Key, val: Option<Val>): (e: State)
    requires |d.table| > 0
    ensures |e.table| > 0
  {
    Settle(Put(d, hash, key, val, true), hash)
  }

  // dict_get
  ghost function Get(d: State, hash: Key -> Word, key: Key): Option<Val>
    requires |d.table| > 0
  {
    d.table[Lookup(d.table, hash(key), key)].Value()
  }

  // dict_del; used is unsigned
  ghost function Del(d: State, hash: Key -> Word, key: Key): State
    requires |d.table| > 0
  {
    d.(table := d.table[Lookup(d.table, hash(key), key) := Dummy], used := Dec(d.used))
  }

  // ------------------------------------------------------------ resizing

  ghost predicate NoDummies(t: seq<Slot>) {
    forall j :: 0 <= j < |t| ==> !t[j].Dummy?
  }

  ghost predicate Inv(d: State, hash: Key -> Word) {
    |d.table| == Pow2(d.bits) && MIN_BITS <= d.bits <= MAX_BITS && TableOk(d.table, hash)
  }

  lemma PutKeeps(d: State, hash: Key -> Word, key: Key, val: Option<Val>, copy: bool, m: map<Key, Option<Val>>)
    requires Inv(d, hash) && Halts(d.table, hash(key), key) && Models(d.table, m)
    ensures var e := Put(d, hash, key, val, copy);
      && Inv(e, hash)
      && Models(e.table, m[key := if copy && val == None then (if key in m then m[key] else None) else val])
  {
    var r := Lookup(d.table, hash(key), key);
    var n := LookupFinds(d.table, hash, key);
    var s := Live(key, Stored(d.table[r], val, copy), hash(key));
    StoreKeeps(d.table, hash, key, s);
    StoreModels(d.table, hash, key, s, m);
    if d.table[r].Live? {
      assert d.table[r].key in m && m[key] == d.table[r].val;
    } else {
      assert key !in m;
    }
  }

  // The map of the live entries among the first n slots.
  ghost function Entries(t: seq<Slot>, n: nat): map<Key, Option<Val>>
    requires n <= |t|
  {
    if n == 0 then map[]
    else if t[n - 1].Live? then Entries(t, n - 1)[t[n - 1].key := t[n - 1].val]
    else Entries(t, n - 1)
  }

  lemma {:induction false} EntriesFrom(t: seq<Slot>, n: nat)
    requires n <= |t|
    ensures forall k :: k in Entries(t, n) ==>
      exists j :: 0 <= j < n && t[j].Live? && t[j].key == k && t[j].val == Entries(t, n)[k]
    ensures forall j :: 0 <= j < n && t[j].Live? ==> t[j].key in Entries(t, n)
  {
    if n > 0 {
      EntriesFrom(t, n - 1);
    }
  }

  lemma EntriesAll(t: seq<Slot>, m: map<Key, Option<Val>>)
    requires Models(t, m)
    ensures Entries(t, |t|) == m
  {
    EntriesFrom(t, |t|);
    forall k
      ensures k in m <==> k in Entries(t, |t|)
    {
      if k in m {
        assert Present(t, k);
      }
    }
  }

  // Re-insertion: the new table holds the entries visited so far, its counters
  // are their number.
  lemma {:induction false} RebuildKeeps(was: seq<Slot>, n: nat, bits: nat, hash: Key -> Word)
    requires n <= |was| && 2 * |was| <= Pow2(bits) && MIN_BITS <= bits <= MAX_BITS && TableOk(was, hash)
    ensures var d := Rebuild(was, n, bits, hash);
      && Inv(d, hash) && Models(d.table, Entries(was, n)) && NoDummies(d.table)
      && d.used == d.fill == Count(d.table, true) == Count(was[..n], false) <= |was|
  {
    if n == 0 {
      RebuildNone(was, bits, hash);
    } else {
      hide TableOk, Models, NoDummies, Count, HasEmpty, Put, Entries;
      CountEmpty(was[..n]);
      RebuildKeeps(was, n - 1, bits, hash);
      CountNext(was, n - 1);
      if was[n - 1].Live? {
        RebuildStep(was, n, bits, hash);
      }
    }
  }

  lemma RebuildNone(was: seq<Slot>, bits: nat, hash: Key -> Word)
    requires MIN_BITS <= bits <= MAX_BITS
    ensures var d := Rebuild(was, 0, bits, hash);
      && Inv(d, hash) && Models(d.table, map[]) && NoDummies(d.table)
      && d.used == d.fill == Count(d.table, true) == Count(was[..0], false) == 0
  {
    NewCount(Pow2(bits));
  }

  lemma {:induction false} NewCount(n: nat)
    ensures Count(seq(n, _ => Empty), true) == 0
  {
    if n > 0 {
      NewCount(n - 1);
      assert seq(n, _ => Empty)[1..] == seq(n - 1, _ => Empty);
    }
  }

  lemma RebuildStep(was: seq<Slot>, n: nat, bits: nat, hash: Key -> Word)
    requires 0 < n <= |was| && 2 * |was| <= Pow2(bits) && bits <= MAX_BITS && TableOk(was, hash) && was[n - 1].Live?
    requires var d := Rebuild(was, n - 1, bits, hash);
      && Inv(d, hash) && Models(d.table, Entries(was, n - 1)) && NoDummies(d.table)
      && d.used == d.fill == Count(d.table, true) == Count(was[..n - 1], false)
    ensures var d := Rebuild(was, n, bits, hash);
      && Inv(d, hash) && Models(d.table, Entries(was, n)) && NoDummies(d.table)
      && d.used == d.fill == Count(d.table, true) == Count(was[..n - 1], false) + 1
  {
    hide TableOk, Count, Lookup, HasEmpty;
    SizeFits(bits);
    CountEmpty(was[..n - 1]);
    var d := Rebuild(was, n - 1, bits, hash);
    var key, val := was[n - 1].key, was[n - 1].val;
    RebuildHalts(was, n, bits, hash);
    PutKeeps(d, hash, key, val, false, Entries(was, n - 1));
    var r := Lookup(d.table, hash(key), key);
    CountUpdate(d.table, true, r, Live(key, val, hash(key)));
  }

  // The re-inserted key is new, and finds an empty slot.
  lemma RebuildHalts(was: seq<Slot>, n: nat, bits: nat, hash: Key -> Word)
    requires 0 < n <= |was| && 2 * |was| <= Pow2(bits) && TableOk(was, hash) && was[n - 1].Live?
    requires var d := Rebuild(was, n - 1, bits, hash);
      && Inv(d, hash) && Models(d.table, Entries(was, n - 1)) && NoDummies(d.table)
      && Count(d.table, true) == Count(was[..n - 1], false)
    ensures var d := Rebuild(was, n - 1, bits, hash);
      && Halts(d.table, hash(was[n - 1].key), was[n - 1].key)
      && d.table[Lookup(d.table, hash(was[n - 1].key), was[n - 1].key)].Empty?
  {
    var d := Rebuild(was, n - 1, bits, hash);
    var key := was[n - 1].key;
    CountEmpty(was[..n - 1]);
    CountEmpty(d.table);
    HaltsIff(d.table, hash, bits, key);
    EntriesFrom(was, n - 1);
    if key in Entries(was, n - 1) {
      var j :| 0 <= j < n - 1 && was[j].Live? && was[j].key == key;
      LiveUnique(was, hash, j, n - 1);
    }
    var _ := LookupFinds(d.table, hash, key);
  }

  // dict_resize keeps the map; where it rebuilds, used and fill become the exact
  // number of entries and no tombstone is left.
  lemma ResizeKeeps(d: State, hash: Key -> Word, m: map<Key, Option<Val>>)
    requires Inv(d, hash) && Models(d.table, m) && ResizeReturns(d)
    ensures var e := Resize(d, hash);
      && Inv(e, hash) && Models(e.table, m)
      && (Pow2(d.bits) > Target(Pow2(d.bits), d.used) ==> e == d)
      && (Pow2(d.bits) <= Target(Pow2(d.bits), d.used) ==>
        && e.bits > d.bits && NoDummies(e.table)
        && e.used == e.fill == Count(e.table, true) == Count(d.table, false))
  {
    var bits := NewBits(d);
    GrowBounded(d.bits, Target(Pow2(d.bits), d.used));
    if bits > d.bits {
      Pow2Monotone(d.bits + 1, bits);
      RebuildKeeps(d.table, |d.table|, bits, hash);
      EntriesAll(d.table, m);
      assert d.table[..|d.table|] == d.table;
    }
  }

  lemma PutInv(d: State, hash: Key -> Word, key: Key, val: Option<Val>, copy: bool)
    requires Inv(d, hash) && Halts(d.table, hash(key), key)
    ensures Inv(Put(d, hash, key, val, copy), hash)
  {
    StoreKeeps(d.table, hash, key,
      Live(key, Stored(d.table[Lookup(d.table, hash(key), key)], val, copy), hash(key)));
  }

  // When dict_resize rebuilds, the new table has room for twice the old one.
  lemma ResizeSizes(d: State, hash: Key -> Word)
    requires Inv(d, hash) && ResizeReturns(d)
    ensures var b := NewBits(d);
      && Target(Pow2(d.bits), d.used) < HALF && b <= MAX_BITS
      && (b != d.bits ==>
        && MIN_BITS <= b && 2 * |d.table| <= Pow2(b) && TableOk(d.table, hash)
        && (b == MAX_BITS ==> Count(d.table, false) < QUARTER))
  {
    var b := NewBits(d);
    GrowBounded(d.bits, Target(Pow2(d.bits), d.used));
    if b > d.bits {
      Pow2Monotone(d.bits + 1, b);
    }
  }

  // What the re-insertion loop may rely on at slot i: a re-insertion returns, and
  // whatever its load test says, it does not change the table again.
  lemma RebuildReady(was: seq<Slot>, i: nat, bits: nat, hash: Key -> Word)
    requires i <= |was| && 2 * |was| <= Pow2(bits) && MIN_BITS <= bits <= MAX_BITS && TableOk(was, hash)
    requires bits == MAX_BITS ==> Count(was, false) < QUARTER
    ensures Inv(Rebuild(was, i, bits, hash), hash)
    ensures i < |was| && was[i].Live? ==>
      var d := Rebuild(was, i, bits, hash); var e := Put(d, hash, was[i].key, was[i].val, false);
      && PutReturns(d, hash, was[i].key, was[i].val, false)
      && Rebuild(was, i + 1, bits, hash) == e == Settle(e, hash)
    ensures i < |was| && !was[i].Live? ==> Rebuild(was, i + 1, bits, hash) == Rebuild(was, i, bits, hash)
  {
    hide TableOk, Models, Count, NoDummies, Lookup, Entries;
    RebuildKeeps(was, i, bits, hash);
    if i < |was| && was[i].Live? {
      RebuildHalts(was, i + 1, bits, hash);
      RebuildKeeps(was, i + 1, bits, hash);
      CountPrefix(was, i + 1);
      SettledAlready(Rebuild(was, i + 1, bits, hash), |was|, hash);
    }
  }

  // The bound of 2^30 entries in ResizeReturns is sharp: with that many the last
  // re-insertion into 2^31 slots starts a doubling that never ends.  This is about any
  // sound table; that a run reaches one is not claimed.
  lemma FullRebuildHangs(was: seq<Slot>, hash: Key -> Word)
    requires 2 * |was| <= Pow2(MAX_BITS) && TableOk(was, hash) && Count(was, false) >= QUARTER
    ensures var d := Rebuild(was, |was|, MAX_BITS, hash);
      Loaded(d.fill, Pow2(d.bits)) && !ResizeReturns(d)
  {
    hide TableOk, Models, Count;
    PowerValues();
    RebuildKeeps(was, |was|, MAX_BITS, hash);
    assert was[..|was|] == was;
  }

  // A table with at most half of its slots in use is not resized.
  lemma SettledAlready(e: State, n: nat, hash: Key -> Word)
    requires Inv(e, hash) && e.used == e.fill <= n && 2 * n <= Pow2(e.bits)
    requires e.bits == MAX_BITS ==> e.fill < QUARTER
    ensures Settle(e, hash) == e
    ensures Loaded(e.fill, Pow2(e.bits)) ==> ResizeReturns(e)
  {
    PowerValues();
    if e.bits < MAX_BITS {
      Pow2Monotone(e.bits, 30);
    }
    NoWrap(e.fill, e.used, Pow2(e.bits));
  }

  // ------------------------------------------------------------ runs

  datatype Op = OpAdd(key: Key, val: Option<Val>) | OpGet(key: Key) | OpDel(key: Key)

  // The call returns: its lookup ends, and if it resizes so does the resizing.
  ghost predicate Returns(d: State, hash: Key -> Word, op: Op)
    requires |d.table| > 0
  {
    match op
    case OpAdd(key, val) => PutReturns(d, hash, key, val, true)
    case OpGet(key) => Halts(d.table, hash(key), key)
    case OpDel(key) => Halts(d.table, hash(key), key)
  }

  ghost function Step(d: State, hash: Key -> Word, op: Op): (e: State)
    requires |d.table| > 0
    ensures |e.table| > 0
  {
    match op
    case OpAdd(key, val) => Add(d, hash, key, val)
    case OpGet(_) => d
    case OpDel(key) => Del(d, hash, key)
  }

  // What the operations mean for a map from keys to possibly NULL values.
  function SpecAdd(m: map<Key, Option<Val>>, key: Key, val: Option<Val>): map<Key, Option<Val>> {
    m[key := if val == None && key in m then m[key] else val]
  }

  function SpecStep(m: map<Key, Option<Val>>, op: Op): map<Key, Option<Val>> {
    match op
    case OpAdd(key, val) => SpecAdd(m, key, val)
    case OpGet(_) => m
    case OpDel(key) => m - {key}
  }

  function SpecRun(m: map<Key, Option<Val>>, ops: seq<Op>): map<Key, Option<Val>>
    decreases |ops|
  {
    if ops == [] then m else SpecRun(SpecStep(m, ops[0]), ops[1..])
  }

  lemma AddKeeps(d: State, hash: Key -> Word, key: Key, val: Option<Val>, m: map<Key, Option<Val>>)
    requires Inv(d, hash) && Models(d.table, m) && Returns(d, hash, OpAdd(key, val))
    ensures Inv(Add(d, hash, key, val), hash) && Models(Add(d, hash, key, val).table, SpecAdd(m, key, val))
  {
    PutKeeps(d, hash, key, val, true, m);
    var e := Put(d, hash, key, val, true);
    if Loaded(e.fill, Pow2(e.bits)) {
      ResizeKeeps(e, hash, SpecAdd(m, key, val));
    }
  }

  lemma DelKeeps(d: State, hash: Key -> Word, key: Key, m: map<Key, Option<Val>>)
    requires Inv(d, hash) && Models(d.table, m) && Halts(d.table, hash(key), key)
    ensures Inv(Del(d, hash, key), hash) && Models(Del(d, hash, key).table, m - {key})
  {
    StoreKeeps(d.table, hash, key, Dummy);
    StoreModels(d.table, hash, key, Dummy, m);
  }

  // Deleting a key twice leaves the table of deleting it once.
  lemma DelTwice(d: State, hash: Key -> Word, key: Key)
    requires Inv(d, hash) && Halts(d.table, hash(key), key) && Halts(Del(d, hash, key).table, hash(key), key)
    ensures Del(Del(d, hash, key), hash, key).table == Del(d, hash, key).table
  {
    DeletedReused(d.table, hash, key);
  }

  // dict_get returns the last value added, and NULL (not defval) for an absent key.
  lemma GetIs(d: State, hash: Key -> Word, key: Key, m: map<Key, Option<Val>>)
    requires Inv(d, hash) && Models(d.table, m) && Halts(d.table, hash(key), key)
    ensures Get(d, hash, key) == if key in m then m[key] else None
  {
    var n := LookupFinds(d.table, hash, key);
    var r := Lookup(d.table, hash(key), key);
    if d.table[r].Live? {
      assert d.table[r].key in m;
    }
  }

  // ... which is what is documented exactly when the key is present or defval is
  // NULL itself.
  lemma GetAsDocumentedIff(d: State, hash: Key -> Word, key: Key, m: map<Key, Option<Val>>, defval: Option<Val>)
    requires Inv(d, hash) && Models(d.table, m) && Halts(d.table, hash(key), key)
    ensures Get(d, hash, key) == (if key in m then m[key] else defval) <==> key in m || defval == None
  {
    GetIs(d, hash, key, m);
  }

  // What dict_del returns; None is the NULL key.
  function DelReturns(key: Option<Key>): int {
    if key == None then -1 else 0
  }

  // It is what is documented (-1 for a key that is not found) exactly when the key is
  // present or NULL.
  lemma DelAsDocumentedIff(m: map<Key, Option<Val>>, key: Option<Key>)
    ensures DelReturns(key) == (if key.Some? && key.value in m then 0 else -1) <==> key == None || key.value in m
  {
  }

  ghost predicate RunReturns(d: State, hash: Key -> Word, ops: seq<Op>)
    requires |d.table| > 0
    decreases |ops|
  {
    ops != [] ==> Returns(d, hash, ops[0]) && RunReturns(Step(d, hash, ops[0]), hash, ops[1..])
  }

  ghost function Run(d: State, hash: Key -> Word, ops: seq<Op>): (e: State)
    requires |d.table| > 0
    ensures |e.table| > 0
    decreases |ops|
  {
    if ops == [] then d else Run(Step(d, hash, ops[0]), hash, ops[1..])
  }

  lemma StepKeeps(d: State, hash: Key -> Word, op: Op, m: map<Key, Option<Val>>)
    requires Inv(d, hash) && Models(d.table, m) && Returns(d, hash, op)
    ensures Inv(Step(d, hash, op), hash) && Models(Step(d, hash, op).table, SpecStep(m, op))
  {
    match op
    case OpAdd(key, val) => AddKeeps(d, hash, key, val, m);
    case OpGet(_) =>
    case OpDel(key) => DelKeeps(d, hash, key, m);
  }

  // Every run whose calls return refines the map, whatever is deleted.
  lemma {:induction false} RunRefines(d: State, hash: Key -> Word, ops: seq<Op>, m: map<Key, Option<Val>>)
    requires Inv(d, hash) && Models(d.table, m) && RunReturns(d, hash, ops)
    ensures Inv(Run(d, hash, ops), hash) && Models(Run(d, hash, ops).table, SpecRun(m, ops))
    decreases |ops|
  {
    if ops != [] {
      StepKeeps(d, hash, ops[0], m);
      RunRefines(Step(d, hash, ops[0]), hash, ops[1..], SpecStep(m, ops[0]));
    }
  }

  // ------------------------------------------------------------ counters

  // used and fill are upper bounds.
  predicate Counted(d: State) {
    Count(d.table, false) <= d.used <= d.fill && Count(d.table, true) <= d.fill
  }

  lemma PutCounts(d: State, hash: Key -> Word, key: Key, val: Option<Val>)
    requires |d.table| > 0 && Counted(d) && d.fill < WORD - 1
    ensures Counted(Put(d, hash, key, val, true))
  {
    var r := Lookup(d.table, hash(key), key);
    var s := Live(key, Stored(d.table[r], val, true), hash(key));
    CountUpdate(d.table, false, r, s);
    CountUpdate(d.table, true, r, s);
  }

  // What is looked up is live exactly when the key is present.
  lemma LiveIff(d: State, hash: Key -> Word, key: Key)
    requires Inv(d, hash) && Halts(d.table, hash(key), key)
    ensures d.table[Lookup(d.table, hash(key), key)].Live? <==> Present(d.table, key)
  {
    var _ := LookupFinds(d.table, hash, key);
  }

  // used is meant to be the number of keys, fill that of the slots that are not empty.
  // An add raises both whatever it finds, so each is still right exactly when the key
  // was new, or its slot was empty.
  lemma AddExactIff(d: State, hash: Key -> Word, key: Key, val: Option<Val>)
    requires Inv(d, hash) && Halts(d.table, hash(key), key)
    requires d.used == Count(d.table, false) && d.fill == Count(d.table, true) < WORD - 1
    ensures var e := Put(d, hash, key, val, true);
      && (e.used == Count(e.table, false) <==> !Present(d.table, key))
      && (e.fill == Count(e.table, true) <==> d.table[Lookup(d.table, hash(key), key)].Empty?)
  {
    hide TableOk, Count, Halts, Lookup, Present, Pow2, Stored;
    LiveIff(d, hash, key);
    var r := Lookup(d.table, hash(key), key);
    var s := Live(key, Stored(d.table[r], val, true), hash(key));
    CountUpdate(d.table, false, r, s);
    CountUpdate(d.table, true, r, s);
    CountEmpty(d.table);
  }

  // A delete lowers used whatever it finds, and never fill.
  lemma DelExactIff(d: State, hash: Key -> Word, key: Key)
    requires Inv(d, hash) && Halts(d.table, hash(key), key)
    requires d.used == Count(d.table, false) && d.fill == Count(d.table, true) < WORD - 1
    ensures var e := Del(d, hash, key);
      && (e.used == Count(e.table, false) <==> Present(d.table, key))
      && (e.fill == Count(e.table, true) <==> !d.table[Lookup(d.table, hash(key), key)].Empty?)
  {
    hide TableOk, Count, Halts, Lookup, Present, Pow2;
    LiveIff(d, hash, key);
    var r := Lookup(d.table, hash(key), key);
    CountUpdate(d.table, false, r, Dummy);
    CountUpdate(d.table, true, r, Dummy);
    CountEmpty(d.table);
    CountEmpty(d.table[r := Dummy]);
  }

  // Live <= used <= fill and occupied <= fill survive every operation other than
  // the deletion of an absent key, as long as fill does not wrap.
  lemma StepCounts(d: State, hash: Key -> Word, op: Op, m: map<Key, Option<Val>>)
    requires Inv(d, hash) && Models(d.table, m) && Returns(d, hash, op) && Counted(d)
    requires (op.OpDel? ==> op.key in m) && (op.OpAdd? ==> d.fill < WORD - 1)
    ensures Counted(Step(d, hash, op))
    ensures Step(d, hash, op).fill <= d.fill + (if op.OpAdd? then 1 else 0) && Step(d, hash, op).bits >= d.bits
  {
    match op
    case OpAdd(key, val) => AddCounts(d, hash, key, val, m);
    case OpGet(_) =>
    case OpDel(key) => DelCounts(d, hash, key, m);
  }

  lemma AddCounts(d: State, hash: Key -> Word, key: Key, val: Option<Val>, m: map<Key, Option<Val>>)
    requires Inv(d, hash) && Models(d.table, m) && PutReturns(d, hash, key, val, true) && Counted(d)
    requires d.fill < WORD - 1
    ensures var e := Add(d, hash, key, val); Counted(e) && e.fill <= d.fill + 1 && e.bits >= d.bits
  {
    hide TableOk, Models, Count, Settle, ResizeReturns, Loaded, Lookup, Halts;
    PutKeeps(d, hash, key, val, true, m);
    PutCounts(d, hash, key, val);
    SettleCounts(Put(d, hash, key, val, true), hash, SpecAdd(m, key, val));
  }

  lemma DelCounts(d: State, hash: Key -> Word, key: Key, m: map<Key, Option<Val>>)
    requires Inv(d, hash) && Models(d.table, m) && Halts(d.table, hash(key), key) && Counted(d)
    requires key in m
    ensures Counted(Del(d, hash, key))
  {
    var n := LookupFinds(d.table, hash, key);
    var r := Lookup(d.table, hash(key), key);
    CountUpdate(d.table, false, r, Dummy);
    CountUpdate(d.table, true, r, Dummy);
    CountEmpty(d.table[r := Dummy]);
  }

  lemma SettleCounts(e: State, hash: Key -> Word, m: map<Key, Option<Val>>)
    requires Inv(e, hash) && Models(e.table, m) && Counted(e)
    requires Loaded(e.fill, Pow2(e.bits)) ==> ResizeReturns(e)
    ensures var f := Settle(e, hash); Counted(f) && f.fill <= e.fill && f.bits >= e.bits
  {
    hide TableOk, Models, Count, Rebuild, Resize, NoDummies;
    if Loaded(e.fill, Pow2(e.bits)) {
      ResizeKeeps(e, hash, m);
      CountEmpty(Resize(e, hash).table);
    }
  }

  // Deleting an absent key puts a tombstone where none is counted and lowers used
  // all the same: the bounds survive it exactly when both have a margin.
  lemma DelAbsentCountsIff(d: State, hash: Key -> Word, key: Key, m: map<Key, Option<Val>>)
    requires Inv(d, hash) && Models(d.table, m) && Returns(d, hash, OpDel(key)) && Counted(d)
    requires key !in m && d.fill < WORD - 1
    ensures Counted(Del(d, hash, key)) <==>
      && Count(d.table, false) < d.used
      && (d.table[Lookup(d.table, hash(key), key)].Empty? ==> Count(d.table, true) < d.fill)
  {
    var n := LookupFinds(d.table, hash, key);
    var r := Lookup(d.table, hash(key), key);
    CountUpdate(d.table, false, r, Dummy);
    CountUpdate(d.table, true, r, Dummy);
  }

  // Deleting any key from a new dictionary breaks them.
  lemma DelAbsentExample(hash: Key -> Word, key: Key)
    ensures Counted(New()) && Returns(New(), hash, OpDel(key))
    ensures Del(New(), hash, key).used == WORD - 1 && !Counted(Del(New(), hash, key))
  {
    NewOk(hash);
    CountersHalt(New(), hash, key);
  }

  // ------------------------------------------------------------ runs read off the counters

  // Fewer than size insertions counted leave an empty slot, so every lookup ends.
  lemma CountersHalt(d: State, hash: Key -> Word, key: Key)
    requires Inv(d, hash) && Counted(d) && d.fill < Pow2(d.bits)
    ensures HasEmpty(d.table) && Halts(d.table, hash(key), key)
  {
    CountEmpty(d.table);
    HaltsIff(d.table, hash, d.bits, key);
  }

  // Below 2^30 nothing wraps, and the resizing an insertion asks for ends.
  lemma CountersReturn(d: State, hash: Key -> Word, key: Key, val: Option<Val>)
    requires Inv(d, hash) && Counted(d) && d.fill < Pow2(d.bits) && d.fill + 1 < QUARTER
    ensures PutReturns(d, hash, key, val, true)
  {
    CountersHalt(d, hash, key);
    PutCounts(d, hash, key, val);
    var e := Put(d, hash, key, val, true);
    TargetSmall(Pow2(d.bits), e.used);
  }

  lemma TargetSmall(size: nat, used: Word)
    requires used < QUARTER && used <= size
    ensures Target(size, used) < HALF
  {
    NoWrap(used, used, size);
  }

  function Adds(ops: seq<Op>): nat
    decreases |ops|
  {
    if ops == [] then 0 else (if ops[0].OpAdd? then 1 else 0) + Adds(ops[1..])
  }

  // Every delete of the run is of a key present at that time.
  predicate DeletesPresent(m: map<Key, Option<Val>>, ops: seq<Op>)
    decreases |ops|
  {
    ops != [] ==> (ops[0].OpDel? ==> ops[0].key in m) && DeletesPresent(SpecStep(m, ops[0]), ops[1..])
  }

  // A run of adds, gets and deletes of present keys returns while its adds do not
  // use up the size of the table it starts from.
  lemma {:induction false} CountedRunReturns(d: State, hash: Key -> Word, ops: seq<Op>, m: map<Key, Option<Val>>)
    requires Inv(d, hash) && Models(d.table, m) && Counted(d) && DeletesPresent(m, ops)
    requires d.fill + Adds(ops) < Pow2(d.bits) && d.fill + Adds(ops) < QUARTER
    ensures RunReturns(d, hash, ops) && Counted(Run(d, hash, ops))
    decreases |ops|
  {
    if ops != [] {
      hide TableOk, Models, Count, Step, SpecStep, PutReturns;
      CountersHalt(d, hash, ops[0].key);
      if ops[0].OpAdd? {
        CountersReturn(d, hash, ops[0].key, ops[0].val);
      }
      StepKeeps(d, hash, ops[0], m);
      StepCounts(d, hash, ops[0], m);
      Pow2Monotone(d.bits, Step(d, hash, ops[0]).bits);
      CountedRunReturns(Step(d, hash, ops[0]), hash, ops[1..], SpecStep(m, ops[0]));
    }
  }

  // ------------------------------------------------------------ runs without deletes

  ghost predicate Roomy(d: State) {
    && Counted(d) && d.used == d.fill < QUARTER
    && (d.bits < MAX_BITS ==> 3 * d.fill < 2 * Pow2(d.bits))
  }

  lemma RoomySizes(d: State, hash: Key -> Word)
    requires Inv(d, hash) && Roomy(d)
    ensures d.fill < Pow2(d.bits)
    ensures d.bits < MAX_BITS ==> Pow2(d.bits) <= QUARTER
    ensures d.bits == MAX_BITS ==> Pow2(d.bits) == HALF
  {
    PowerValues();
    if d.bits < MAX_BITS {
      Pow2Monotone(d.bits, 30);
    }
  }

  // Without deletes an add returns exactly while fewer than 2^30 - 1 have been
  // counted: in a table of 2^31 slots the next one never stops doubling.
  lemma AddReturnsIff(d: State, hash: Key -> Word, key: Key, val: Option<Val>)
    requires Inv(d, hash) && Roomy(d)
    ensures Returns(d, hash, OpAdd(key, val)) <==> d.fill + 1 < QUARTER
  {
    RoomySizes(d, hash);
    if d.fill + 1 < QUARTER {
      CountersReturn(d, hash, key, val);
    } else {
      assert d.bits == MAX_BITS && Target(HALF, QUARTER) == HALF && Loaded(QUARTER, HALF);
    }
  }

  // Each crossing of the load test then strictly grows a table of less than 2^31
  // slots.
  lemma AddStaysRoomy(d: State, hash: Key -> Word, key: Key, val: Option<Val>, m: map<Key, Option<Val>>)
    requires Inv(d, hash) && Models(d.table, m) && Returns(d, hash, OpAdd(key, val)) && Roomy(d)
    ensures var e := Add(d, hash, key, val);
      && Roomy(e) && e.fill <= d.fill + 1 && e.bits >= d.bits
      && (Loaded(d.fill + 1, Pow2(d.bits)) && d.bits < MAX_BITS ==> e.bits > d.bits)
  {
    hide TableOk, Models, Count, Lookup, Settle, Halts, Loaded, ResizeReturns;
    AddReturnsIff(d, hash, key, val);
    RoomySizes(d, hash);
    PutKeeps(d, hash, key, val, true, m);
    PutCounts(d, hash, key, val);
    SettleRoomy(Put(d, hash, key, val, true), hash, SpecAdd(m, key, val));
  }

  // An add resizes exactly when two thirds of the slots are counted in, and then to the
  // least power of two above four times the adds counted, or twice from 64000 slots on.
  lemma AddGrowth(d: State, hash: Key -> Word, key: Key, val: Option<Val>)
    requires Inv(d, hash) && Returns(d, hash, OpAdd(key, val)) && Roomy(d) && d.bits < MAX_BITS
    ensures var e, n, size := Add(d, hash, key, val), d.fill + 1, Pow2(d.bits);
      && (e.bits == d.bits <==> 3 * n < 2 * size)
      && (3 * n >= 2 * size ==>
        var target := (if size > 64000 then 2 else 4) * n;
        e.bits > 0 && Pow2(e.bits - 1) <= target < Pow2(e.bits))
  {
    hide Pow2, Lookup, Halts, Rebuild, TableOk, Count;
    AddReturnsIff(d, hash, key, val);
    RoomySizes(d, hash);
    NoWrap(d.fill + 1, d.used + 1, Pow2(d.bits));
  }

  lemma SettleRoomy(e: State, hash: Key -> Word, m: map<Key, Option<Val>>)
    requires Inv(e, hash) && Models(e.table, m) && Counted(e)
    requires e.used == e.fill < QUARTER && e.fill <= Pow2(e.bits)
    requires Loaded(e.fill, Pow2(e.bits)) ==> ResizeReturns(e)
    ensures var f := Settle(e, hash);
      && Roomy(f) && f.fill <= e.fill && f.bits >= e.bits
      && (Loaded(e.fill, Pow2(e.bits)) && e.bits < MAX_BITS ==> f.bits > e.bits)
  {
    hide TableOk, Models, Count, Resize, NoDummies, Pow2, Target, ResizeReturns;
    LoadOf(e.bits, e.fill);
    if Loaded(e.fill, Pow2(e.bits)) {
      ResizeKeeps(e, hash, m);
      var f := Resize(e, hash);
      CountEmpty(e.table);
      CountEmpty(f.table);
      if f.bits > e.bits {
        TwiceAsLarge(e.bits, f.bits);
      }
    }
  }

  lemma TwiceAsLarge(b: nat, c: nat)
    requires b < c
    ensures 2 * Pow2(b) <= Pow2(c)
  {
    Pow2Monotone(b + 1, c);
  }

  // The load test in numbers; where it succeeds the size does not exceed the target.
  lemma LoadOf(bits: nat, fill: Word)
    requires bits <= MAX_BITS && fill < QUARTER
    ensures bits < MAX_BITS ==> (Loaded(fill, Pow2(bits)) <==> 3 * fill >= 2 * Pow2(bits))
    ensures bits < MAX_BITS && Loaded(fill, Pow2(bits)) ==> Pow2(bits) <= Target(Pow2(bits), fill)
  {
    hide Pow2;
    PowerValues();
    if bits < MAX_BITS {
      Pow2Monotone(bits, 30);
    }
    NoWrap(fill, fill, Pow2(bits));
  }

  // Every run of adds and gets returns, and an empty slot always remains.
  lemma {:induction false} AddsReturn(d: State, hash: Key -> Word, ops: seq<Op>, m: map<Key, Option<Val>>)
    requires Inv(d, hash) && Models(d.table, m) && Roomy(d)
    requires (forall i :: 0 <= i < |ops| ==> !ops[i].OpDel?) && d.fill + Adds(ops) < QUARTER
    ensures RunReturns(d, hash, ops)
    ensures Roomy(Run(d, hash, ops)) && HasEmpty(Run(d, hash, ops).table)
    decreases |ops|
  {
    RoomySizes(d, hash);
    CountEmpty(d.table);
    if ops != [] {
      hide TableOk, Models, Count, PutReturns, Add;
      CountersHalt(d, hash, ops[0].key);
      if ops[0].OpAdd? {
        AddReturnsIff(d, hash, ops[0].key, ops[0].val);
        AddStaysRoomy(d, hash, ops[0].key, ops[0].val, m);
      }
      StepKeeps(d, hash, ops[0], m);
      AddsReturn(Step(d, hash, ops[0]), hash, ops[1..], SpecStep(m, ops[0]));
    }
  }

  lemma NewOk(hash: Key -> Word)
    ensures Inv(New(), hash) && Models(New().table, map[]) && Roomy(New())
  {
    NewCount(8);
    CountEmpty(New().table);
  }

  // ------------------------------------------------------------ runs with deletes

  // Adding and deleting a key that hashes to i leaves a tombstone there.
  ghost function Churned(i: nat): State
    requires i <= 8
  {
    State(seq(8, j => if j < i then Dummy else Empty), MIN_BITS, 0, i)
  }

  lemma ChurnOnce(i: nat, hash: Key -> Word, key: Key, val: Option<Val>)
    requires i < 8 && hash(key) == i
    ensures var d := Churned(i); var e := Add(d, hash, key, val);
      && Returns(d, hash, OpAdd(key, val)) && Returns(e, hash, OpDel(key))
      && Del(e, hash, key) == Churned(i + 1)
  {
    var d := Churned(i);
    assert Probe(i, 8, 0) == i;
    assert StopsAt(d.table, i, key, 0);
    LookupIs(d.table, i, key, 0);
    var e := Put(d, hash, key, val, true);
    assert e == State(d.table[i := Live(key, val, i)], MIN_BITS, 1, i + 1);
    SmallTarget(e);
    assert StopsAt(e.table, i, key, 0);
    LookupIs(e.table, i, key, 0);
    assert Del(e, hash, key).table == Churned(i + 1).table;
  }

  lemma SmallTarget(e: State)
    requires e.bits == MIN_BITS && e.used == 1
    ensures Target(Pow2(e.bits), e.used) == 4 && NewBits(e) == MIN_BITS && ResizeReturns(e)
  {
    assert Pow2(3) == 8;
  }

  // After eight such pairs no slot is empty: from then on the lookup of any key
  // never ends.
  lemma ChurnHangs(hash: Key -> Word, key: Key)
    ensures Churned(0) == New()
    ensures Inv(Churned(8), hash) && !Halts(Churned(8).table, hash(key), key)
  {
    assert Churned(0).table == New().table;
    HaltsIff(Churned(8).table, hash, MIN_BITS, key);
  }

  function ChurnOps(keys: seq<Key>, i: nat, val: Option<Val>): seq<Op>
    requires i <= |keys|
    decreases |keys| - i
  {
    if i == |keys| then [] else [OpAdd(keys[i], val), OpDel(keys[i])] + ChurnOps(keys, i + 1, val)
  }

  // ... and a run of adds and deletes of present keys gets there.
  lemma {:induction false} ChurnRun(hash: Key -> Word, keys: seq<Key>, i: nat, val: Option<Val>)
    requires |keys| == 8 && i <= 8 && forall j :: 0 <= j < 8 ==> hash(keys[j]) == j
    ensures var ops := ChurnOps(keys, i, val);
      RunReturns(Churned(i), hash, ops) && Run(Churned(i), hash, ops) == Churned(8)
    decreases 8 - i
  {
    if i < 8 {
      ChurnOnce(i, hash, keys[i], val);
      ChurnRun(hash, keys, i + 1, val);
      var ops := ChurnOps(keys, i, val);
      var rest := ops[1..];
      var e := Step(Churned(i), hash, ops[0]);
      assert rest[0] == OpDel(keys[i]) && rest[1..] == ChurnOps(keys, i + 1, val);
      assert Step(e, hash, rest[0]) == Churned(i + 1);
      assert RunReturns(e, hash, rest) && Run(e, hash, rest) == Churned(8);
    }
  }

  // ------------------------------------------------------------ a resize that never ends

  // A new table whose one used slot is s.
  ghost function OneSlot(hash: Key -> Word, key: Key, s: Slot, used: Word, fill: Word): State {
    State(New().table[hash(key) % 8 := s], MIN_BITS, used, fill)
  }

  // The slot of the key is the first one probed, also when it holds a tombstone.
  lemma OneSlotFound(hash: Key -> Word, key: Key, s: Slot, used: Word, fill: Word)
    requires s.Live? ==> s.key == key
    ensures var d := OneSlot(hash, key, s, used, fill);
      Halts(d.table, hash(key), key) && Lookup(d.table, hash(key), key) == hash(key) % 8
  {
    var h := hash(key);
    var t := OneSlot(hash, key, s, used, fill).table;
    assert Probe(h, 8, 0) == h % 8 && At(t, h, 0) == s;
    if s.Dummy? {
      var j: nat := (h as int + 1) % 8;
      assert Pow2(3) == 8;
      var n := ReachesAll(h, 3, j);
      FirstStop(t, h, key, n);
      var m: nat :| StopsAt(t, h, key, m);
      LookupIs(t, h, key, m);
    } else {
      assert StopsAt(t, h, key, 0);
      LookupIs(t, h, key, 0);
    }
  }

  // n deletes of the same absent key leave one tombstone and lower used n times.
  lemma {:induction false} DrainRun(hash: Key -> Word, key: Key, n: nat)
    requires 0 < n < WORD
    ensures var ops := seq(n, _ => OpDel(key));
      RunReturns(New(), hash, ops) && Run(New(), hash, ops) == OneSlot(hash, key, Dummy, WORD - n, 0)
  {
    var ops := seq(n, _ => OpDel(key));
    assert New() == OneSlot(hash, key, Empty, 0, 0) by {
      assert New().table[hash(key) % 8 := Empty] == New().table;
    }
    OneSlotFound(hash, key, Empty, 0, 0);
    assert Del(New(), hash, key) == OneSlot(hash, key, Dummy, WORD - 1, 0);
    DrainOn(hash, key, 1, n - 1);
    assert ops[1..] == seq(n - 1, _ => OpDel(key));
  }

  lemma {:induction false} DrainOn(hash: Key -> Word, key: Key, i: nat, n: nat)
    requires 0 < i && i + n < WORD
    ensures var d, ops := OneSlot(hash, key, Dummy, WORD - i, 0), seq(n, _ => OpDel(key));
      RunReturns(d, hash, ops) && Run(d, hash, ops) == OneSlot(hash, key, Dummy, WORD - (i + n), 0)
    decreases n
  {
    if n > 0 {
      var d, ops := OneSlot(hash, key, Dummy, WORD - i, 0), seq(n, _ => OpDel(key));
      OneSlotFound(hash, key, Dummy, WORD - i, 0);
      assert d.table[hash(key) % 8 := Dummy] == d.table;
      assert Del(d, hash, key) == OneSlot(hash, key, Dummy, WORD - (i + 1), 0);
      DrainOn(hash, key, i + 1, n - 1);
      assert ops[1..] == seq(n - 1, _ => OpDel(key));
    }
  }

  // Five adds after seven such deletes do not reach the load test ...
  lemma {:induction false} RefillRun(hash: Key -> Word, key: Key, val: Option<Val>, i: nat)
    requires i < 5
    ensures var s := if i == 0 then Dummy else Live(key, val, hash(key));
      var d, ops := OneSlot(hash, key, s, WORD - 7 + i, i), seq(5 - i, _ => OpAdd(key, val));
      RunReturns(d, hash, ops) && Run(d, hash, ops) == OneSlot(hash, key, Live(key, val, hash(key)), WORD - 2, 5)
    decreases 5 - i
  {
    var s := if i == 0 then Dummy else Live(key, val, hash(key));
    var d, ops := OneSlot(hash, key, s, WORD - 7 + i, i), seq(5 - i, _ => OpAdd(key, val));
    var l := Live(key, val, hash(key));
    RefillOnce(hash, key, val, s, i);
    var e := OneSlot(hash, key, l, WORD - 6 + i, i + 1);
    assert ops[1..] == seq(4 - i, _ => OpAdd(key, val));
    if i < 4 {
      RefillRun(hash, key, val, i + 1);
    } else {
      assert ops[1..] == [];
    }
  }

  lemma RefillOnce(hash: Key -> Word, key: Key, val: Option<Val>, s: Slot, i: nat)
    requires i <= 5 && (s == Dummy || s == Live(key, val, hash(key)))
    ensures var d, e := OneSlot(hash, key, s, WORD - 7 + i, i),
        OneSlot(hash, key, Live(key, val, hash(key)), WORD - 6 + i, i + 1);
      && Halts(d.table, hash(key), key) && Put(d, hash, key, val, true) == e
      && (Loaded(e.fill, Pow2(e.bits)) <==> i == 5)
      && (i < 5 ==> PutReturns(d, hash, key, val, true) && Add(d, hash, key, val) == e)
  {
    hide Lookup, Halts, ResizeReturns, Resize, Pow2;
    OneSlotFound(hash, key, s, WORD - 7 + i, i);
    var d := OneSlot(hash, key, s, WORD - 7 + i, i);
    var l := Live(key, val, hash(key));
    assert d.table[hash(key) % 8 := l] == New().table[hash(key) % 8 := l];
    EightSlots();
  }

  lemma EightSlots()
    ensures Pow2(MIN_BITS) == 8
  {
    assert Pow2(3) == 8;
  }

  // ... but the sixth does, with used at 2^32 - 1: its lookup ends, and the doubling
  // loop of dict_resize never does, for any hash function, key and value.
  lemma DrainedAddHangs(hash: Key -> Word, key: Key, val: Option<Val>)
    ensures var dels, adds := seq(7, _ => OpDel(key)), seq(5, _ => OpAdd(key, val));
      var d := Run(Run(New(), hash, dels), hash, adds); var e := Put(d, hash, key, val, true);
      && RunReturns(New(), hash, dels) && RunReturns(Run(New(), hash, dels), hash, adds)
      && Halts(d.table, hash(key), key) && Loaded(e.fill, Pow2(e.bits)) && !Returns(d, hash, OpAdd(key, val))
      && forall n: nat :: Doubled(8, n) <= Target(8, e.used)
  {
    hide Run, RunReturns, Doubled, Halts, Lookup;
    DrainRun(hash, key, 7);
    RefillRun(hash, key, val, 0);
    RefillOnce(hash, key, val, Live(key, val, hash(key)), 5);
    assert Pow2(3) == 8;
    DoublingEndsIff(3, Target(8, WORD - 1));
  }
}
