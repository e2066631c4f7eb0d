// The table of lsd/dict.c as a value: what a lookup finds, and what storing into
// the slot it finds does to every other key.  The hash function is arbitrary.
module DictTable {
  import opened Base
  import opened ProbeSeq

  type Key(!new, ==)
  type Val(!new, ==)

  // struct keypair.  A slot with key NULL is Empty, one with key DUMMY_PTR is
  // Dummy; their value is NULL.
  datatype Slot = Empty | Dummy | Live(key: Key, val: Option<Val>, hash: Word) {
    function Value(): Option<Val> {
      if Live? then val else None
    }
  }

  // dict_lookup ends at such a slot.
  predicate Stop(s: Slot, key: Key) {
    s.Empty? || (s.Live? && s.key == key)
  }

  // The slot of probe n.
  function At(t: seq<Slot>, h: nat, n: nat): Slot
    requires |t| > 0
  {
    t[Probe(h, |t|, n)]
  }

  ghost predicate Passes(t: seq<Slot>, h: nat, key: Key, n: nat)
    requires |t| > 0
  {
    forall m: nat :: m < n ==> !Stop(At(t, h, m), key)
  }

  ghost predicate StopsAt(t: seq<Slot>, h: nat, key: Key, n: nat)
    requires |t| > 0
  {
    Stop(At(t, h, n), key) && Passes(t, h, key, n)
  }

  // The probing loop ends.
  ghost predicate Halts(t: seq<Slot>, h: nat, key: Key)
    requires |t| > 0
  {
    exists n: nat :: StopsAt(t, h, key, n)
  }

  lemma {:induction false} FirstStop(t: seq<Slot>, h: nat, key: Key, n: nat)
    requires |t| > 0 && Stop(At(t, h, n), key)
    ensures Halts(t, h, key)
    decreases n
  {
    if !StopsAt(t, h, key, n) {
      var m: nat :| m < n && Stop(At(t, h, m), key);
      FirstStop(t, h, key, m);
    }
  }

  lemma StopUnique(t: seq<Slot>, h: nat, key: Key, m: nat, n: nat)
    requires |t| > 0 && StopsAt(t, h, key, m) && StopsAt(t, h, key, n)
    ensures m == n
  {
  }

  // The number of the first probe before n that meets a tombstone; n if none does.
  function FirstDummy(t: seq<Slot>, h: nat, n: nat): (m: nat)
    requires |t| > 0
    ensures m <= n && (m < n ==> At(t, h, m).Dummy?)
    ensures forall k: nat :: k < m ==> !At(t, h, k).Dummy?
  {
    if n == 0 then 0
    else
      var m := FirstDummy(t, h, n - 1);
      if m < n - 1 || At(t, h, n - 1).Dummy? then m else n
  }

  // The probe whose slot dict_lookup returns, when it stops at probe n.
  function Chosen(t: seq<Slot>, h: nat, n: nat): nat
    requires |t| > 0
  {
    if At(t, h, n).Live? then n else FirstDummy(t, h, n)
  }

  ghost function Lookup(t: seq<Slot>, h: nat, key: Key): (r: nat)
    requires |t| > 0
    ensures r < |t|
  {
    if Halts(t, h, key) then
      var n: nat :| StopsAt(t, h, key, n);
      Probe(h, |t|, Chosen(t, h, n))
    else 0
  }

  lemma LookupIs(t: seq<Slot>, h: nat, key: Key, n: nat)
    requires |t| > 0 && StopsAt(t, h, key, n)
    ensures Halts(t, h, key) && Lookup(t, h, key) == Probe(h, |t|, Chosen(t, h, n))
  {
    var m: nat :| StopsAt(t, h, key, m) && Lookup(t, h, key) == Probe(h, |t|, Chosen(t, h, m));
    StopUnique(t, h, key, m, n);
  }

  // ------------------------------------------------------------ the invariant

  // A live key sits at the end of its own probe path.
  ghost predicate OnPath(t: seq<Slot>, hash: Key -> Word, j: nat)
    requires j < |t| && t[j].Live?
  {
    && t[j].hash == hash(t[j].key)
    && exists n: nat :: StopsAt(t, t[j].hash, t[j].key, n) && Probe(t[j].hash, |t|, n) == j
  }

  ghost predicate TableOk(t: seq<Slot>, hash: Key -> Word) {
    |t| > 0 && forall j :: 0 <= j < |t| && t[j].Live? ==> OnPath(t, hash, j)
  }

  ghost predicate Present(t: seq<Slot>, key: Key) {
    exists j :: 0 <= j < |t| && t[j].Live? && t[j].key == key
  }

  lemma LiveUnique(t: seq<Slot>, hash: Key -> Word, i: nat, j: nat)
    requires TableOk(t, hash) && i < |t| && j < |t| && t[i].Live? && t[j].Live? && t[i].key == t[j].key
    ensures i == j
  {
    assert OnPath(t, hash, i) && OnPath(t, hash, j);
    var m: nat :| StopsAt(t, t[i].hash, t[i].key, m) && Probe(t[i].hash, |t|, m) == i;
    var n: nat :| StopsAt(t, t[j].hash, t[j].key, n) && Probe(t[j].hash, |t|, n) == j;
    StopUnique(t, t[i].hash, t[i].key, m, n);
  }

  lemma KeysDiffer(t: seq<Slot>, hash: Key -> Word, i: nat, j: nat)
    requires TableOk(t, hash) && i < j < |t| && t[i].Live? && t[j].Live?
    ensures t[i].key != t[j].key
  {
    if t[i].key == t[j].key {
      LiveUnique(t, hash, i, j);
    }
  }

  // Where a lookup that stops at probe s ends up, no earlier probe has been.
  lemma ChosenFirst(t: seq<Slot>, h: nat, key: Key, s: nat)
    requires |t| > 0 && StopsAt(t, h, key, s)
    ensures var n := Chosen(t, h, s);
      && n <= s && Passes(t, h, key, n) && (n == s || At(t, h, n).Dummy?)
      && (!At(t, h, n).Live? ==> forall m: nat :: m < n ==> !t[Probe(h, |t|, m)].Dummy?)
      && forall m: nat :: m < n ==> Probe(h, |t|, m) != Probe(h, |t|, n)
  {
    var n := Chosen(t, h, s);
    assert Passes(t, h, key, n);
    if !At(t, h, n).Live? {
      forall m: nat | m < n
        ensures !t[Probe(h, |t|, m)].Dummy?
      {
        assert !At(t, h, m).Dummy?;
      }
    }
    forall m: nat | m < n
      ensures Probe(h, |t|, m) != Probe(h, |t|, n)
    {
      assert !Stop(At(t, h, m), key);
      if n < s {
        assert !At(t, h, m).Dummy?;
      }
    }
  }

  // What dict_lookup returns: the slot of a present key, otherwise the first tombstone
  // or empty slot on its path, with nothing before it that would stop a later lookup.
  lemma LookupFinds(t: seq<Slot>, hash: Key -> Word, key: Key) returns (n: nat)
    requires TableOk(t, hash) && Halts(t, hash(key), key)
    ensures var r := Lookup(t, hash(key), key);
      && (t[r].Live? <==> Present(t, key)) && (t[r].Live? ==> t[r].key == key)
      && Probe(hash(key), |t|, n) == r && Passes(t, hash(key), key, n)
      && (forall m: nat :: m < n ==> Probe(hash(key), |t|, m) != r)
      && (!t[r].Live? ==> forall m: nat :: m < n ==> !t[Probe(hash(key), |t|, m)].Dummy?)
  {
    hide Chosen, Probe;
    var h := hash(key);
    var s: nat :| StopsAt(t, h, key, s);
    LookupIs(t, h, key, s);
    ChosenFirst(t, h, key, s);
    n := Chosen(t, h, s);
    StoppedLive(t, hash, key, s);
  }

  lemma StoppedLive(t: seq<Slot>, hash: Key -> Word, key: Key, s: nat)
    requires TableOk(t, hash) && StopsAt(t, hash(key), key, s)
    ensures var r := t[Probe(hash(key), |t|, Chosen(t, hash(key), s))];
      (r.Live? <==> Present(t, key)) && (r.Live? ==> r.key == key)
  {
    hide Probe;
    if Present(t, key) {
      var j :| 0 <= j < |t| && t[j].Live? && t[j].key == key;
      assert OnPath(t, hash, j);
      var i: nat :| StopsAt(t, hash(key), key, i) && Probe(hash(key), |t|, i) == j;
      StopUnique(t, hash(key), key, s, i);
    }
  }

  // Storing into that slot, or deleting it, keeps every other key on its path.
  lemma StoreKeepsOthers(t: seq<Slot>, hash: Key -> Word, key: Key, s: Slot, j: nat)
    requires TableOk(t, hash) && Halts(t, hash(key), key)
    requires s.Dummy? || (s.Live? && s.key == key)
    requires j < |t| && j != Lookup(t, hash(key), key) && t[j].Live?
    ensures OnPath(t[Lookup(t, hash(key), key) := s], hash, j)
  {
    var r := Lookup(t, hash(key), key);
    var t' := t[r := s];
    var _ := LookupFinds(t, hash, key);
    if t[j].key == key {
      LiveUnique(t, hash, j, r);
    }
    assert OnPath(t, hash, j);
    var h, k := t[j].hash, t[j].key;
    var n: nat :| StopsAt(t, h, k, n) && Probe(h, |t|, n) == j;
    forall m: nat | m < n
      ensures !Stop(At(t', h, m), k)
    {
      assert !Stop(At(t, h, m), k);
    }
    assert StopsAt(t', h, k, n);
  }

  lemma StoreKeeps(t: seq<Slot>, hash: Key -> Word, key: Key, s: Slot)
    requires TableOk(t, hash) && Halts(t, hash(key), key)
    requires s.Dummy? || (s.Live? && s.key == key && s.hash == hash(key))
    ensures TableOk(t[Lookup(t, hash(key), key) := s], hash)
  {
    var h, r := hash(key), Lookup(t, hash(key), key);
    var t' := t[r := s];
    forall j | 0 <= j < |t'| && t'[j].Live?
      ensures OnPath(t', hash, j)
    {
      if j != r {
        StoreKeepsOthers(t, hash, key, s, j);
      } else {
        var n := LookupFinds(t, hash, key);
        forall m: nat | m < n
          ensures !Stop(At(t', h, m), key)
        {
          assert !Stop(At(t, h, m), key);
        }
        assert StopsAt(t', h, key, n);
      }
    }
  }

  // Once it is deleted, a key is looked up at a tombstone, so deleting it again uses up
  // no empty slot.
  lemma DeletedReused(t: seq<Slot>, hash: Key -> Word, key: Key)
    requires TableOk(t, hash) && Halts(t, hash(key), key)
    requires Halts(t[Lookup(t, hash(key), key) := Dummy], hash(key), key)
    ensures var t' := t[Lookup(t, hash(key), key) := Dummy];
      t'[Lookup(t', hash(key), key)] == Dummy
  {
    var h, r := hash(key), Lookup(t, hash(key), key);
    var n := LookupFinds(t, hash, key);
    var t' := t[r := Dummy];
    StoreKeeps(t, hash, key, Dummy);
    var s: nat :| StopsAt(t', h, key, s);
    LookupIs(t', h, key, s);
    assert At(t', h, n) == Dummy;
    forall m: nat | m < n
      ensures !Stop(At(t', h, m), key)
    {
      assert !Stop(At(t, h, m), key);
    }
    assert n < s;
    if At(t', h, s).Live? {
      var j := Probe(h, |t'|, s);
      assert t[j].Live? && t[j].key == key && j != r;
      assert t[r].Live? by {
        assert Present(t, key);
      }
      LiveUnique(t, hash, j, r);
    }
  }

  // ------------------------------------------------------------ when lookup ends

  ghost predicate HasEmpty(t: seq<Slot>) {
    exists j :: 0 <= j < |t| && t[j].Empty?
  }

  // dict_lookup returns exactly when the key is present or some slot is empty;
  // then within SHIFTS + size probes.
  lemma HaltsIff(t: seq<Slot>, hash: Key -> Word, bits: nat, key: Key)
    requires TableOk(t, hash) && |t| == Pow2(bits)
    ensures Halts(t, hash(key), key) <==> HasEmpty(t) || Present(t, key)
    ensures forall n: nat :: HasEmpty(t) && StopsAt(t, hash(key), key, n) ==> n < SHIFTS + |t|
  {
    var h := hash(key);
    if HasEmpty(t) {
      var j :| 0 <= j < |t| && t[j].Empty?;
      var n := ReachesAll(h, bits, j);
      assert Stop(At(t, h, n), key);
      FirstStop(t, h, key, n);
    } else if Present(t, key) {
      var j :| 0 <= j < |t| && t[j].Live? && t[j].key == key;
      assert OnPath(t, hash, j);
    }
  }

  // ------------------------------------------------------------ counting

  // Live slots, with the tombstones if asked for.
  function Count(t: seq<Slot>, dummies: bool): nat {
    if t == [] then 0
    else (if t[0].Live? || (dummies && t[0].Dummy?) then 1 else 0) + Count(t[1..], dummies)
  }

  lemma {:induction false} CountUpdate(t: seq<Slot>, dummies: bool, i: nat, s: Slot)
    requires i < |t|
    ensures Count(t[i := s], dummies) == Count(t, dummies)
        - (if t[i].Live? || (dummies && t[i].Dummy?) then 1 else 0)
        + (if s.Live? || (dummies && s.Dummy?) then 1 else 0)
  {
    if i == 0 {
      assert t[0 := s][1..] == t[1..];
    } else {
      assert t[i := s][1..] == t[1..][i - 1 := s];
      CountUpdate(t[1..], dummies, i - 1, s);
    }
  }

  lemma {:induction false} CountEmpty(t: seq<Slot>)
    ensures Count(t, false) <= Count(t, true) <= |t|
    ensures Count(t, true) < |t| <==> HasEmpty(t)
  {
    if t != [] {
      CountEmpty(t[1..]);
      assert forall i :: 1 <= i < |t| ==> t[i] == t[1..][i - 1];
      if HasEmpty(t[1..]) {
        var j :| 0 <= j < |t| - 1 && t[1..][j].Empty?;
        assert t[j + 1].Empty?;
      }
    }
  }

  lemma {:induction false} CountNext(t: seq<Slot>, i: nat)
    requires i < |t|
    ensures Count(t[..i + 1], false) == Count(t[..i], false) + if t[i].Live? then 1 else 0
  {
    if i == 0 {
      assert t[..1][1..] == [] && t[..0] == [];
    } else {
      assert t[..i + 1][1..] == t[1..][..i] && t[..i][1..] == t[1..][..i - 1];
      CountNext(t[1..], i - 1);
    }
  }

  lemma {:induction false} CountPrefix(t: seq<Slot>, n: nat)
    requires n <= |t|
    ensures Count(t[..n], false) <= Count(t, false)
    decreases |t| - n
  {
    if n == |t| {
      assert t[..n] == t;
    } else {
      CountNext(t, n);
      CountPrefix(t, n + 1);
    }
  }

  // ------------------------------------------------------------ the map

  // The table holds exactly the entries of m.
  ghost predicate Models(t: seq<Slot>, m: map<Key, Option<Val>>) {
    && (forall j :: 0 <= j < |t| && t[j].Live? ==> t[j].key in m && m[t[j].key] == t[j].val)
    && (forall k :: k in m ==> Present(t, k))
  }

  lemma StoreModels(t: seq<Slot>, hash: Key -> Word, key: Key, s: Slot, m: map<Key, Option<Val>>)
    requires TableOk(t, hash) && Halts(t, hash(key), key) && Models(t, m)
    requires s.Dummy? || (s.Live? && s.key == key)
    ensures Models(t[Lookup(t, hash(key), key) := s], if s.Live? then m[key := s.val] else m - {key})
  {
    var r := Lookup(t, hash(key), key);
    var t' := t[r := s];
    var m' := if s.Live? then m[key := s.val] else m - {key};
    var _ := LookupFinds(t, hash, key);
    forall j | 0 <= j < |t'| && t'[j].Live?
      ensures t'[j].key in m' && m'[t'[j].key] == t'[j].val
    {
      if j != r && t[j].key == key {
        LiveUnique(t, hash, j, r);
      }
    }
    forall k | k in m'
      ensures Present(t', k)
    {
      if k == key {
        assert t'[r].Live?;
      } else {
        var j :| 0 <= j < |t| && t[j].Live? && t[j].key == k;
        assert t'[j] == t[j];
      }
    }
  }

  // ------------------------------------------------------------ enumeration

  // The first live slot from i on; the size if there is none.
  function NextLive(t: seq<Slot>, i: nat): (n: nat)
    ensures n < |t| ==> i <= n && t[n].Live?
    ensures forall j :: i <= j < |t| && j < n ==> !t[j].Live?
    decreases |t| - i
  {
    if i >= |t| then |t| else if t[i].Live? then i else NextLive(t, i + 1)
  }

  // The keys met by feeding each returned rank to the next call, from rank i.
  function Enumeration(t: seq<Slot>, i: nat): seq<Key>
    decreases |t| - i
  {
    var n := NextLive(t, i);
    if n < |t| then [t[n].key] + Enumeration(t, n + 1) else []
  }

  lemma {:induction false} EnumerationFrom(t: seq<Slot>, hash: Key -> Word, i: nat)
    requires TableOk(t, hash)
    ensures forall k :: k in Enumeration(t, i) <==> exists j :: i <= j < |t| && t[j].Live? && t[j].key == k
    ensures forall a, b :: 0 <= a < b < |Enumeration(t, i)| ==> Enumeration(t, i)[a] != Enumeration(t, i)[b]
    decreases |t| - i
  {
    var n := NextLive(t, i);
    if n < |t| {
      EnumerationFrom(t, hash, n + 1);
      var rest := Enumeration(t, n + 1);
      forall b | 0 <= b < |rest|
        ensures rest[b] != t[n].key
      {
        assert rest[b] in rest;
        var j: nat :| n + 1 <= j < |t| && t[j].Live? && t[j].key == rest[b];
        KeysDiffer(t, hash, n, j);
      }
    }
  }

  // Enumerating from rank 0 meets every key of the map exactly once.
  lemma EnumerationIsMap(t: seq<Slot>, hash: Key -> Word, m: map<Key, Option<Val>>)
    requires TableOk(t, hash) && Models(t, m)
    ensures forall k :: k in Enumeration(t, 0) <==> k in m
    ensures forall a, b :: 0 <= a < b < |Enumeration(t, 0)| ==> Enumeration(t, 0)[a] != Enumeration(t, 0)[b]
  {
    EnumerationFrom(t, hash, 0);
    forall k
      ensures k in Enumeration(t, 0) <==> k in m
    {
      if k in m {
        assert Present(t, k);
      }
    }
  }
}
