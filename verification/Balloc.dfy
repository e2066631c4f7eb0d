// lsd/balloc.c: a block allocator.  A heap is a chain of blocks; a block owns a
// fixed number of cells, each on the block's free list or on its used list.
module Balloc {
  import opened Base
  import opened Dlink
  import opened Layout

  // struct MemBlock with the element that follows it.  The pointer handed to the
  // client is the cell itself.
  class Cell<P> {
    const self: DNode<Cell<P>>
    var block: Block?<P>
    var payload: P

    constructor (b: Block<P>, p: P)
      ensures block == b && payload == p && fresh(self)
    {
      self := new DNode<Cell<P>>();
      block, payload := b, p;
    }
  }

  ghost function AsSet<T>(s: seq<T>): set<T> {
    set x | x in s
  }

  // struct Block
  class Block<P> {
    var next: Block?<P>
    const freeList: DList<Cell<P>>
    const usedList: DList<Cell<P>>
    ghost var cells: seq<Cell<P>>
    ghost var repr: set<object>

    // A node on one of the lists is embedded in the cell it points to.
    ghost predicate Embedded(list: DList<Cell<P>>)
      reads this`cells, this`repr, repr
      requires list in repr
    {
      && (forall n :: n in list.nodes ==> n in repr)
      && list.Valid()
      && forall n :: n in list.nodes ==> n.data.Some? && n.data.value in cells && n.data.value.self == n
    }

    // Every cell points back to this block and is on one of the two lists.
    ghost predicate Owned()
      reads this`cells, this`repr, repr
      requires freeList in repr && usedList in repr
    {
      forall c :: c in cells ==>
        && c in repr && c.self in repr
        && c.block == this && c.self.data == Some(c)
        && (c.self in freeList.nodes || c.self in usedList.nodes)
    }

    ghost predicate Valid()
      reads this`cells, this`repr, repr
    {
      && this !in repr && freeList in repr && usedList in repr && freeList != usedList
      && Embedded(freeList) && Embedded(usedList) && Apart(freeList.nodes, usedList.nodes)
      && Owned()
      && (forall i, j :: 0 <= i < j < |cells| ==> cells[i] != cells[j])
      && |freeList.nodes| + |usedList.nodes| == |cells|
    }

    // The cells in the hands of clients.
    ghost function Live(): set<Cell<P>>
      reads this`cells, usedList
    {
      set c | c in cells && c.self in usedList.nodes
    }

    // blockheap_block_new: n cells, all free.
    constructor (n: nat, p: P)
      ensures Valid() && fresh(repr) && |cells| == n
      ensures |freeList.nodes| == n && Live() == {} && next == null
    {
      next := null;
      freeList := new DList<Cell<P>>();
      usedList := new DList<Cell<P>>();
      cells := [];
      new;
      repr := {freeList, usedList};
      for i := 0 to n
        invariant Valid() && fresh(repr) && |cells| == i && usedList.nodes == [] && next == null
      {
        AddCell(p);
      }
    }

    // One turn of the loop of blockheap_block_new.
    method AddCell(p: P)
      requires Valid()
      modifies this`cells, this`repr, repr
      ensures Valid() && |cells| == old(|cells|) + 1 && fresh(repr - old(repr)) && old(repr) <= repr
      ensures |freeList.nodes| == old(|freeList.nodes|) + 1 && usedList.nodes == old(usedList.nodes)
    {
      hide Valid;
      var c := new Cell<P>(this, p);
      Adopt(c);
    }

    method Adopt(c: Cell<P>)
      requires Valid() && c !in repr && c.self !in repr && c.block == this
      modifies this`cells, this`repr, repr, c.self
      ensures Valid() && cells == old(cells) + [c] && repr == old(repr) + {c, c.self}
      ensures |freeList.nodes| == old(|freeList.nodes|) + 1 && usedList.nodes == old(usedList.nodes)
    {
      hide DList.Valid, Chained, Distinct;
      freeList.HeadIn();
      freeList.Add(c, c.self);
      cells := cells + [c];
      repr := repr + {c, c.self};
    }

    lemma Counted()
      requires Valid()
      ensures this !in repr && freeList in repr && freeList.length == |freeList.nodes|
      ensures forall c :: c in Live() ==> c in cells && c in repr && c.block == this
      ensures |freeList.nodes| + |Live()| == |cells|
    {
      assert usedList.nodes[..|usedList.nodes|] == usedList.nodes;
      LiveSize(|usedList.nodes|);
    }

    lemma {:induction false} LiveSize(i: nat)
      requires Valid() && i <= |usedList.nodes|
      ensures |set c | c in cells && c.self in usedList.nodes[..i]| == i
    {
      var us := usedList.nodes;
      if i > 0 {
        LiveSize(i - 1);
        assert us[i - 1] in us;
        var x := us[i - 1].data.value;
        assert us[..i] == us[..i - 1] + [us[i - 1]];
        assert (set c | c in cells && c.self in us[..i]) == (set c | c in cells && c.self in us[..i - 1]) + {x};
      }
    }

    // dlink_move of the first free cell's node, and of a used one's.
    method ToUsed(c: Cell<P>)
      requires Valid() && c in cells && |freeList.nodes| > 0 && freeList.nodes[0] == c.self
      modifies freeList, usedList, freeList.nodes, usedList.nodes
      ensures Valid() && c !in old(Live()) && Live() == old(Live()) + {c}
      ensures freeList.nodes == old(freeList.nodes)[1..]
    {
      RemovedDistinct(freeList.nodes, 0);
      freeList.MoveTo(c.self, usedList, 0);
    }

    method ToFree(c: Cell<P>, ghost k: nat)
      requires Valid() && c in cells && k < |usedList.nodes| && usedList.nodes[k] == c.self
      modifies freeList, usedList, freeList.nodes, usedList.nodes
      ensures Valid() && Live() == old(Live()) - {c}
      ensures freeList.nodes == [c.self] + old(freeList.nodes)
    {
      RemovedDistinct(usedList.nodes, k);
      usedList.MoveTo(c.self, freeList, k);
    }

    // A client writes to its element.
    method Store(c: Cell<P>, p: P)
      requires Valid() && c in Live()
      modifies c`payload
      ensures Valid() && Live() == old(Live()) && c.payload == p
    {
      assert freeList.Valid() && usedList.Valid();
      c.payload := p;
      assert freeList.Valid() && usedList.Valid();
    }

    // The head of the free list.
    lemma FirstFree()
      requires Valid() && |freeList.nodes| > 0
      ensures freeList.head == freeList.nodes[0] && freeList.head.data.Some?
      ensures var c := freeList.head.data.value; c in cells && c in repr && c.self == freeList.head
      ensures Frame() && forall x :: x in Live() ==> x in cells
    {
      assert freeList.nodes[0] in freeList.nodes;
    }

    // Where a live cell is on the used list.
    lemma UsedAt(c: Cell<P>) returns (k: nat)
      requires Valid() && c in Live()
      ensures k < |usedList.nodes| && usedList.nodes[k] == c.self && c in cells && c in repr
      ensures Frame() && forall x :: x in Live() ==> x in cells
    {
      k :| 0 <= k < |usedList.nodes| && usedList.nodes[k] == c.self;
    }

    ghost predicate Frame()
      reads this`repr, freeList, usedList
    {
      && freeList in repr && usedList in repr && this !in repr
      && (forall n :: n in freeList.nodes ==> n in repr) && (forall n :: n in usedList.nodes ==> n in repr)
    }

    // blockheap_alloc, once a block with a free cell is found.
    method Take(zero: P) returns (c: Cell<P>)
      requires Valid() && |freeList.nodes| > 0
      modifies repr
      ensures cells == old(cells) && repr == old(repr)
      ensures Valid() && c in repr && c !in old(Live()) && Live() == old(Live()) + {c}
      ensures c.self == old(freeList.nodes)[0] && freeList.nodes == old(freeList.nodes)[1..]
      ensures c.payload == zero && forall x :: x in old(Live()) && x != c ==> x.payload == old(x.payload)
    {
      hide Valid, Live;
      FirstFree();
      c := freeList.head.data.value;
      ToUsed(c);
      Store(c, zero);
    }

    // blockheap_free on a cell of this block.
    method Give(c: Cell<P>, zero: P)
      requires Valid() && c in Live()
      modifies repr
      ensures cells == old(cells) && repr == old(repr)
      ensures Valid() && Live() == old(Live()) - {c}
      ensures freeList.nodes == [c.self] + old(freeList.nodes)
      ensures c.payload == zero && forall x :: x in old(Live()) && x != c ==> x.payload == old(x.payload)
    {
      hide Valid, Live;
      ghost var k := UsedAt(c);
      Store(c, zero);
      ToFree(c, k);
    }
  }

  function Total(s: seq<nat>): nat {
    if s == [] then 0 else s[0] + Total(s[1..])
  }

  lemma {:induction false} TotalConcat(s: seq<nat>, t: seq<nat>)
    ensures Total(s + t) == Total(s) + Total(t)
  {
    if s == [] {
      assert s + t == t;
    } else {
      assert (s + t)[1..] == s[1..] + t;
      TotalConcat(s[1..], t);
    }
  }

  lemma {:induction false} TotalUpdate(s: seq<nat>, k: nat, v: nat)
    requires k < |s|
    ensures Total(s[k := v]) == Total(s) - s[k] + v
  {
    if k == 0 {
      assert s[k := v][1..] == s[1..];
    } else {
      assert s[k := v][1..] == s[1..][k - 1 := v];
      TotalUpdate(s[1..], k - 1, v);
    }
  }

  lemma {:induction false} TotalZero(s: seq<nat>)
    ensures Total(s) == 0 <==> forall i :: 0 <= i < |s| ==> s[i] == 0
  {
    if s != [] {
      TotalZero(s[1..]);
      assert forall i :: 1 <= i < |s| ==> s[i] == s[1..][i - 1];
    }
  }

  lemma {:induction false} CountAll<T>(ks: seq<nat>, ls: seq<set<T>>, n: nat)
    requires |ks| == |ls|
    requires forall i :: 0 <= i < |ls| ==> ks[i] + |ls[i]| == n
    requires forall i, j :: 0 <= i < j < |ls| ==> ls[i] !! ls[j]
    ensures Total(ks) + |Union(ls)| == |ls| * n
  {
    if ls != [] {
      CountAll(ks[1..], ls[1..], n);
      forall x | x in Union(ls[1..])
        ensures x !in ls[0]
      {
        InUnion(ls[1..], x);
      }
      assert |Union(ls)| == |ls[0]| + |Union(ls[1..])|;
      OneMore(n, |ls| - 1);
    }
  }

  // The elements of s whose count in f is not n, in order.
  function Kept<T>(s: seq<T>, f: seq<nat>, n: nat): seq<T>
    requires |s| == |f|
  {
    if s == [] then [] else (if f[0] == n then [] else [s[0]]) + Kept(s[1..], f[1..], n)
  }

  // What a collection leaves of the blocks bs with free counts ks.
  function Collected<T>(bs: seq<T>, ks: seq<nat>, free: nat, n: nat): seq<T>
    requires |bs| == |ks|
  {
    if free < n || |bs| == 1 then bs else Kept(bs, ks, n)
  }

  function Union<T>(s: seq<set<T>>): set<T> {
    if s == [] then {} else s[0] + Union(s[1..])
  }

  lemma {:induction false} InUnion<T>(s: seq<set<T>>, x: T)
    ensures x in Union(s) <==> exists i :: 0 <= i < |s| && x in s[i]
  {
    if s != [] {
      InUnion(s[1..], x);
      assert forall i :: 1 <= i < |s| ==> s[i] == s[1..][i - 1];
      if x in Union(s[1..]) {
        var i :| 0 <= i < |s| - 1 && x in s[1..][i];
        assert x in s[i + 1];
      }
    }
  }

  lemma CountersCons<T>(n: nat, ks: seq<nat>, ls: seq<set<T>>)
    ensures Total([n] + ks) == n + Total(ks)
    ensures Union([{}] + ls) == Union(ls)
  {
  }

  lemma {:induction false} UnionAdd<T>(s: seq<set<T>>, k: nat, c: T)
    requires k < |s|
    ensures Union(s[k := s[k] + {c}]) == Union(s) + {c}
  {
    var t := s[k := s[k] + {c}];
    if k == 0 {
      assert t[1..] == s[1..];
    } else {
      assert t[1..] == s[1..][k - 1 := s[1..][k - 1] + {c}];
      UnionAdd(s[1..], k - 1, c);
    }
  }

  lemma {:induction false} UnionDrop<T>(s: seq<set<T>>, k: nat, c: T)
    requires k < |s| && forall i :: 0 <= i < |s| && i != k ==> c !in s[i]
    ensures Union(s[k := s[k] - {c}]) == Union(s) - {c}
  {
    var t := s[k := s[k] - {c}];
    InUnion(s[1..], c);
    if k == 0 {
      assert t[1..] == s[1..];
    } else {
      assert t[1..] == s[1..][k - 1 := s[1..][k - 1] - {c}];
      UnionDrop(s[1..], k - 1, c);
    }
  }

  // What a sweep unlinks: exactly the entries with count n.
  lemma {:induction false} KeptExactly<T>(s: seq<T>, f: seq<nat>, n: nat)
    requires |s| == |f|
    ensures forall i :: 0 <= i < |s| && f[i] != n ==> s[i] in Kept(s, f, n)
    ensures forall x :: x in Kept(s, f, n) ==> exists i :: 0 <= i < |s| && s[i] == x && f[i] != n
    ensures Kept(s, f, n) == [] <==> forall i :: 0 <= i < |s| ==> f[i] == n
  {
    if s != [] {
      KeptExactly(s[1..], f[1..], n);
      assert forall i :: 1 <= i < |s| ==> s[i] == s[1..][i - 1] && f[i] == f[1..][i - 1];
      forall x | x in Kept(s[1..], f[1..], n)
        ensures exists i :: 0 <= i < |s| && s[i] == x && f[i] != n
      {
        var i :| 0 <= i < |s| - 1 && s[1..][i] == x && f[1..][i] != n;
        assert s[i + 1] == x && f[i + 1] != n;
      }
    }
  }

  // Without repetitions that names each element.
  lemma KeptIff<T>(s: seq<T>, f: seq<nat>, n: nat)
    requires |s| == |f| && forall i, j :: 0 <= i < j < |s| ==> s[i] != s[j]
    ensures forall i :: 0 <= i < |s| ==> (s[i] in Kept(s, f, n) <==> f[i] != n)
  {
    hide Kept;
    KeptExactly(s, f, n);
  }

  lemma {:induction false} KeptStep<T>(s: seq<T>, f: seq<nat>, n: nat, i: nat)
    requires |s| == |f| && i < |s|
    ensures Kept(s[..i + 1], f[..i + 1], n) == Kept(s[..i], f[..i], n) + if f[i] == n then [] else [s[i]]
  {
    if i == 0 {
      assert s[..1][1..] == [] && s[..0] == [];
    } else {
      assert s[..i + 1][1..] == s[1..][..i] && f[..i + 1][1..] == f[1..][..i];
      assert s[..i][1..] == s[1..][..i - 1] && f[..i][1..] == f[1..][..i - 1];
      KeptStep(s[1..], f[1..], n, i - 1);
    }
  }

  lemma {:induction false} TotalRemove(s: seq<nat>, k: nat)
    requires k < |s|
    ensures Total(RemoveAt(s, k)) == Total(s) - s[k]
  {
    if k == 0 {
      assert RemoveAt(s, k) == s[1..];
    } else {
      assert RemoveAt(s, k)[1..] == RemoveAt(s[1..], k - 1);
      TotalRemove(s[1..], k - 1);
    }
  }

  lemma {:induction false} UnionRemove<T>(s: seq<set<T>>, k: nat)
    requires k < |s| && s[k] == {}
    ensures Union(RemoveAt(s, k)) == Union(s)
  {
    if k == 0 {
      assert RemoveAt(s, k) == s[1..];
    } else {
      assert RemoveAt(s, k)[1..] == RemoveAt(s[1..], k - 1);
      UnionRemove(s[1..], k - 1);
    }
  }

  // The sweep in mid-chain: of the blocks bs with free counts ks the first i have
  // been visited, and those of them that stay are kept.
  ghost predicate Walk<T>(cur: seq<T>, cs: seq<nat>, kept: seq<T>, bs: seq<T>, ks: seq<nat>, n: nat, i: nat) {
    && i <= |bs| == |ks|
    && kept == Kept(bs[..i], ks[..i], n) && cur == kept + bs[i..]
    && |kept| == |Kept(ks[..i], ks[..i], n)| && cs == Kept(ks[..i], ks[..i], n) + ks[i..]
  }

  lemma WalkStart<T>(bs: seq<T>, ks: seq<nat>, n: nat)
    requires |bs| == |ks|
    ensures Walk(bs, ks, [], bs, ks, n, 0)
  {
  }

  lemma WalkStep<T>(cur: seq<T>, cs: seq<nat>, kept: seq<T>, bs: seq<T>, ks: seq<nat>, n: nat, i: nat)
    requires Walk(cur, cs, kept, bs, ks, n, i) && |kept| < |cur|
    ensures |cs| == |cur|
    ensures cs[|kept|] == n ==> Walk(RemoveAt(cur, |kept|), RemoveAt(cs, |kept|), kept, bs, ks, n, i + 1)
    ensures cs[|kept|] != n ==> Walk(cur, cs, kept + [cur[|kept|]], bs, ks, n, i + 1)
    ensures |kept| > 0 ==> RemoveAt(cur, |kept|)[|kept| - 1] == cur[|kept| - 1]
  {
    KeptStep(bs, ks, n, i);
    KeptStep(ks, ks, n, i);
    SplitTail(cur, kept, bs, i);
    SplitTail(cs, Kept(ks[..i], ks[..i], n), ks, i);
  }

  lemma SplitTail<T>(cur: seq<T>, kept: seq<T>, bs: seq<T>, i: nat)
    requires i < |bs| && cur == kept + bs[i..]
    ensures cur[|kept|] == bs[i]
    ensures RemoveAt(cur, |kept|) == kept + bs[i + 1..]
    ensures cur == (kept + [bs[i]]) + bs[i + 1..]
  {
  }

  lemma WalkEnd<T>(cur: seq<T>, cs: seq<nat>, kept: seq<T>, bs: seq<T>, ks: seq<nat>, n: nat, i: nat)
    requires Walk(cur, cs, kept, bs, ks, n, i) && |kept| >= |cur|
    ensures |bs| == |ks| && cur == Kept(bs, ks, n) && cs == Kept(ks, ks, n)
  {
    assert i == |bs|;
    assert bs[..i] == bs && ks[..i] == ks && bs[i..] == [] && ks[i..] == [];
  }

  lemma OneMore(n: nat, k: nat)
    ensures n * (k + 1) == n * k + n
  {
  }

  // Both counters go down by exactly what was removed.
  lemma {:induction false} KeptTotal(f: seq<nat>, n: nat)
    ensures |Kept(f, f, n)| <= |f|
    ensures Total(Kept(f, f, n)) + n * (|f| - |Kept(f, f, n)|) == Total(f)
  {
    if f != [] {
      KeptTotal(f[1..], n);
      TotalConcat(if f[0] == n then [] else [f[0]], Kept(f[1..], f[1..], n));
      var k := |f[1..]| - |Kept(f[1..], f[1..], n)|;
      OneMore(n, k);
    }
  }

  // struct BlockHeap
  class BlockHeap<P> {
    const zero: P  // what memset leaves in an element
    const elemSize: nat
    const elemsPerBlock: nat
    var blocksAllocated: nat
    var freeElems: nat
    var base: Block?<P>
    ghost var blocks: seq<Block<P>>
    ghost var counts: seq<nat>            // free cells of each block
    ghost var lives: seq<set<Cell<P>>>    // live cells of each block
    ghost var live: set<Cell<P>>          // the cells in the hands of clients
    ghost var repr: set<object>

    // The chain hanging off base is exactly blocks.
    ghost predicate Chain(bs: seq<Block<P>>)
      reads this`base, bs`next
    {
      && base == (if bs == [] then null else bs[0])
      && forall i {:trigger bs[i].next} :: 0 <= i < |bs| ==>
        bs[i].next == if i + 1 < |bs| then bs[i + 1] else null
    }

    // Block b with its free count and its live cells.
    ghost predicate Member(b: Block<P>, k: nat, l: set<Cell<P>>)
      reads b`cells, b`repr, b.repr
    {
      && b.Valid() && |b.cells| == elemsPerBlock && k == |b.freeList.nodes| && l == b.Live()
      && b.freeList in b.repr && b.freeList.length == k && b !in b.repr
      && (forall c :: c in l ==> c in b.repr && c.block == b)
      && k + |l| == elemsPerBlock
    }

    lemma IsMember(b: Block<P>)
      requires b.Valid() && |b.cells| == elemsPerBlock
      ensures Member(b, |b.freeList.nodes|, b.Live())
    {
      b.Counted();
    }

    ghost predicate Members(bs: seq<Block<P>>, ks: seq<nat>, ls: seq<set<Cell<P>>>)
      reads bs`cells, bs`repr, set b, o | b in bs && o in b.repr :: o
    {
      && |bs| == |ks| == |ls|
      && forall i :: 0 <= i < |bs| ==> Member(bs[i], ks[i], ls[i])
    }

    ghost predicate Separate(bs: seq<Block<P>>)
      reads bs`repr
    {
      && (forall b, d :: b in bs && d in bs ==> b !in d.repr)
      && (forall i, j :: 0 <= i < j < |bs| ==> bs[i] != bs[j] && bs[i].repr !! bs[j].repr)
    }

    ghost predicate Inside(bs: seq<Block<P>>)
      reads this`repr, bs`repr
    {
      this !in repr && forall b :: b in bs ==> b in repr && b.repr <= repr
    }

    ghost predicate Valid()
      reads this, repr, blocks
    {
      && elemsPerBlock > 0 && Inside(blocks) && Separate(blocks)
      && Members(blocks, counts, lives) && Chain(blocks)
      && blocksAllocated == |blocks| && freeElems == Total(counts)
      && live == Union(lives)
    }

    lemma MembersCons(b: Block<P>, k: nat, l: set<Cell<P>>, bs: seq<Block<P>>, ks: seq<nat>, ls: seq<set<Cell<P>>>)
      requires Member(b, k, l) && Members(bs, ks, ls)
      ensures Members([b] + bs, [k] + ks, [l] + ls)
    {
    }

    lemma SeparateCons(b: Block<P>, bs: seq<Block<P>>)
      requires Separate(bs) && b !in b.repr
      requires forall d :: d in bs ==> b != d && b !in d.repr && d !in b.repr && d.repr !! b.repr
      ensures Separate([b] + bs)
    {
      var s := [b] + bs;
      forall i, j | 0 <= i < j < |s|
        ensures s[i] != s[j] && s[i].repr !! s[j].repr
      {
        assert s[j] == bs[j - 1] && bs[j - 1] in bs;
        if i > 0 {
          assert s[i] == bs[i - 1];
        }
      }
    }

    // blockheap_create; with sizes that are not positive the source exits.
    constructor (size: nat, perBlock: nat, zeroed: P)
      requires size > 0 && perBlock > 0
      ensures Valid() && fresh(repr) && elemsPerBlock == perBlock && zero == zeroed && elemSize == Padded(size)
      ensures blocksAllocated == 1 && freeElems == perBlock && live == {}
    {
      zero, elemSize, elemsPerBlock := zeroed, Padded(size), perBlock;
      blocksAllocated, freeElems, base := 0, 0, null;
      blocks, counts, lives, live, repr := [], [], [], {}, {};
      new;
      BlockNew();
    }

    // blockheap_block_new, where mmap succeeds
    method BlockNew()
      requires Valid()
      modifies this`blocksAllocated, this`freeElems, this`base, this`blocks, this`counts, this`lives, this`repr
      ensures Valid() && fresh(repr - old(repr)) && old(repr) <= repr
      ensures |blocks| == |old(blocks)| + 1 && blocks[1..] == old(blocks) && fresh(blocks[0])
      ensures counts == [elemsPerBlock] + old(counts) && lives == [{}] + old(lives)
    {
      hide Block.Live, Member;
      var b := new Block<P>(elemsPerBlock, zero);
      assert Valid();
      LinkBlock(b);
    }

    method LinkBlock(b: Block<P>)
      requires Valid() && b.Valid() && |b.cells| == |b.freeList.nodes| == elemsPerBlock && b.Live() == {}
      requires b !in repr && b.repr !! repr && this !in b.repr && this != b as object
      modifies this`blocksAllocated, this`freeElems, this`base, this`blocks, this`counts, this`lives, this`repr, b`next
      ensures Valid() && repr == old(repr) + {b} + b.repr
      ensures blocks == [b] + old(blocks)
      ensures counts == [elemsPerBlock] + old(counts) && lives == [{}] + old(lives)
    {
      hide Block.Valid, Block.Live, Member, Members, Total, Union;
      assert forall d :: d in blocks ==> b != d && b !in d.repr && d !in b.repr && d.repr !! b.repr;
      IsMember(b);
      MembersCons(b, elemsPerBlock, {}, blocks, counts, lives);
      SeparateCons(b, blocks);
      CountersCons(elemsPerBlock, counts, lives);
      SetNext(b, base, [b] + blocks, [elemsPerBlock] + counts, [{}] + lives);
      Install(b, [b] + blocks, [elemsPerBlock] + counts, [{}] + lives, repr + {b} + b.repr);
    }

    method SetNext(b: Block<P>, n: Block?<P>, ghost bs: seq<Block<P>>, ghost ks: seq<nat>, ghost ls: seq<set<Cell<P>>>)
      requires Members(bs, ks, ls) && forall d :: d in bs ==> b !in d.repr
      modifies b`next
      ensures Members(bs, ks, ls) && b.next == n
    {
      hide Member;
      assert forall i :: 0 <= i < |bs| ==> bs[i] in bs && Member(bs[i], ks[i], ls[i]);
      b.next := n;
      assert forall i :: 0 <= i < |bs| ==> Member(bs[i], ks[i], ls[i]);
    }

    method Install(b: Block<P>, ghost bs: seq<Block<P>>, ghost ks: seq<nat>, ghost ls: seq<set<Cell<P>>>,
                   ghost r: set<object>)
      modifies this`blocksAllocated, this`freeElems, this`base, this`blocks, this`counts, this`lives, this`repr
      ensures blocksAllocated == old(blocksAllocated) + 1 && freeElems == old(freeElems) + elemsPerBlock && base == b
      ensures blocks == bs && counts == ks && lives == ls && repr == r
    {
      blocksAllocated := blocksAllocated + 1;
      freeElems := freeElems + elemsPerBlock;
      base := b;
      blocks, counts, lives, repr := bs, ks, ls, r;
    }

    // The walk of blockheap_alloc: the first block with a free cell.
    method FindFree() returns (walker: Block?<P>, ghost k: nat)
      requires Valid()
      ensures freeElems > 0 <==> walker != null
      ensures walker != null ==> k < |blocks| && walker == blocks[k] && counts[k] > 0
      ensures walker != null ==> forall i :: 0 <= i < k ==> counts[i] == 0
    {
      hide Block.Valid, Block.Live;
      walker := base;
      k := 0;
      TotalZero(counts);
      while walker != null
        invariant k <= |blocks| && walker == (if k < |blocks| then blocks[k] else null)
        invariant forall i :: 0 <= i < k ==> counts[i] == 0
        decreases |blocks| - k
      {
        assert Member(blocks[k], counts[k], lives[k]);
        if walker.freeList.length > 0 {
          return;
        }
        walker := walker.next;
        k := k + 1;
      }
    }

    // What block k shares with the rest of the heap: nothing.
    lemma Elsewhere(k: nat)
      requires Valid() && k < |blocks|
      ensures |blocks| == |counts| == |lives|
      ensures forall c :: c in lives[k] ==> c in blocks[k].repr
      ensures counts[k] == elemsPerBlock ==> lives[k] == {}
      ensures var b := blocks[k];
        && b.Valid() && |b.cells| == elemsPerBlock && counts[k] == |b.freeList.nodes| && lives[k] == b.Live()
        && this !in b.repr && b !in b.repr && b.repr <= repr
      ensures forall i :: 0 <= i < |blocks| && i != k ==>
        && Member(blocks[i], counts[i], lives[i])
        && blocks[i] !in blocks[k].repr && blocks[i] != blocks[k] && blocks[i].repr !! blocks[k].repr
      ensures forall i :: 0 <= i < |blocks| ==> blocks[i] !in blocks[k].repr
      ensures forall i, c :: 0 <= i < |lives| && i != k && c in lives[i] ==> c !in blocks[k].repr
      ensures forall x :: x in live ==> x in lives[k] || x !in blocks[k].repr
    {
      hide Block.Valid, Block.Live;
      assert Member(blocks[k], counts[k], lives[k]);
      forall i, c | 0 <= i < |lives| && i != k && c in lives[i]
        ensures c !in blocks[k].repr
      {
        assert Member(blocks[i], counts[i], lives[i]);
      }
      forall x | x in live
        ensures x in lives[k] || x !in blocks[k].repr
      {
        InUnion(lives, x);
      }
    }

    // Only block k has changed.
    lemma Refreshed(k: nat, c: nat, l: set<Cell<P>>)
      requires k < |blocks| && |blocks| == |counts| == |lives|
      requires forall i :: 0 <= i < |blocks| && i != k ==> Member(blocks[i], counts[i], lives[i])
      requires Member(blocks[k], c, l)
      ensures Members(blocks, counts[k := c], lives[k := l])
    {
      hide Block.Valid, Block.Live, Member;
    }

    // The part of blockheap_alloc within block k ...
    method TakeAt(walker: Block<P>, ghost k: nat) returns (c: Cell<P>)
      requires Valid() && k < |blocks| && walker == blocks[k] && counts[k] > 0
      modifies walker.repr
      ensures Members(blocks, counts[k := counts[k] - 1], lives[k := lives[k] + {c}])
      ensures Inside(blocks) && Separate(blocks) && Chain(blocks)
      ensures c !in live && c.payload == zero && forall x :: x in live ==> x.payload == old(x.payload)
    {
      hide Block.Valid, Block.Live, Member, Members, Total, Union;
      Elsewhere(k);
      c := walker.Take(zero);
      IsMember(walker);
      Refreshed(k, counts[k] - 1, lives[k] + {c});
    }

    // ... and the rest of it
    method TakeFrom(walker: Block<P>, ghost k: nat) returns (c: Cell<P>)
      requires Valid() && k < |blocks| && walker == blocks[k] && counts[k] > 0
      modifies this`freeElems, this`counts, this`lives, this`live, walker.repr
      ensures Valid()
      ensures counts == old(counts)[k := old(counts)[k] - 1] && freeElems == old(freeElems) - 1
      ensures c !in old(live) && live == old(live) + {c}
      ensures c.payload == zero && forall x :: x in old(live) ==> x.payload == old(x.payload)
    {
      hide Block.Valid, Block.Live, Member, Members, Total, Union, Separate, Chain;
      Elsewhere(k);
      TotalZero(counts);
      TotalUpdate(counts, k, counts[k] - 1);
      c := TakeAt(walker, k);
      UnionAdd(lives, k, c);
      freeElems := freeElems - 1;
      counts := counts[k := counts[k] - 1];
      lives := lives[k := lives[k] + {c}];
      live := live + {c};
    }

    // Conservation: every cell is free or in the hands of a client.
    lemma Conserved()
      requires Valid()
      ensures freeElems + |live| == blocksAllocated * elemsPerBlock
    {
      forall i | 0 <= i < |lives|
        ensures counts[i] + |lives[i]| == elemsPerBlock
      {
        assert Member(blocks[i], counts[i], lives[i]);
      }
      forall i, j | 0 <= i < j < |lives|
        ensures lives[i] !! lives[j]
      {
        assert Member(blocks[i], counts[i], lives[i]);
        assert Member(blocks[j], counts[j], lives[j]);
      }
      CountAll(counts, lives, elemsPerBlock);
    }

    // blockheap_usage
    method Usage() returns (used: nat, free: nat, memory: nat)
      requires Valid()
      ensures used == |live| && free == freeElems
      ensures memory == |live| * (elemSize + MEMBLOCK_SIZE)
    {
      hide Valid;
      Conserved();
      free := freeElems;
      used := blocksAllocated * elemsPerBlock - freeElems;
      memory := used * (elemSize + MEMBLOCK_SIZE);
    }

    // blockheap_alloc.  osRefuses says whether mmap would fail; null stands for the
    // exit of the program when there is then nothing to hand out.
    method Alloc(osRefuses: bool) returns (r: Cell?<P>)
      requires Valid()
      modifies this, repr
      ensures Valid() && old(repr) <= repr && fresh(repr - old(repr))
      ensures r == null <==> old(freeElems) == 0 && osRefuses
      ensures r == null ==> blocks == old(blocks) && counts == old(counts) && live == old(live)
      ensures r != null ==>
        && r !in old(live) && live == old(live) + {r}
        && r.payload == zero && (forall x :: x in old(live) ==> x.payload == old(x.payload))
      ensures r != null && old(freeElems) > 0 ==>
        blocks == old(blocks) && freeElems == old(freeElems) - 1
      ensures r != null && old(freeElems) == 0 ==>
        blocksAllocated == old(blocksAllocated) + 1 && freeElems == elemsPerBlock - 1
    {
      hide Block.Valid, Block.Live, Member;
      if freeElems == 0 {
        if osRefuses {
          GarbageCollect();
          if freeElems == 0 {
            return null;
          }
        } else {
          BlockNew();
        }
      }
      var walker, k := FindFree();
      r := TakeFrom(walker, k);
    }

    // blockheap_free
    method Free(ptr: Cell?<P>) returns (rc: int)
      requires Valid() && (ptr != null ==> ptr in live)
      modifies this, repr
      ensures Valid() && repr == old(repr) && blocks == old(blocks)
      ensures ptr == null ==> rc == 1 && live == old(live) && freeElems == old(freeElems)
      ensures ptr != null ==>
        && rc == 0 && live == old(live) - {ptr} && freeElems == old(freeElems) + 1
        && ptr.payload == zero && forall x :: x in live ==> x.payload == old(x.payload)
    {
      hide Block.Valid, Block.Live, Member;
      if ptr == null {
        return 1;
      }
      ghost var k := Owner(ptr);
      var block := ptr.block;
      GiveTo(block, k, ptr);
      rc := 0;
    }

    lemma Owner(c: Cell<P>) returns (k: nat)
      requires Valid() && c in live
      ensures k < |blocks| && c in lives[k] && c.block == blocks[k]
    {
      InUnion(lives, c);
      k :| k < |lives| && c in lives[k];
      assert Member(blocks[k], counts[k], lives[k]);
    }

    method GiveTo(block: Block<P>, ghost k: nat, c: Cell<P>)
      requires Valid() && k < |blocks| && block == blocks[k] && c in lives[k]
      modifies this`freeElems, this`counts, this`lives, this`live, block.repr
      ensures Valid()
      ensures live == old(live) - {c} && freeElems == old(freeElems) + 1
      ensures c.payload == zero && forall x :: x in live ==> x.payload == old(x.payload)
    {
      hide Block.Valid, Block.Live, Member, Members, Total, Union;
      Elsewhere(k);
      TotalUpdate(counts, k, counts[k] + 1);
      freeElems := freeElems + 1;
      block.Give(c, zero);
      UnionDrop(lives, k, c);
      IsMember(block);
      Refreshed(k, counts[k] + 1, lives[k] - {c});
      counts := counts[k := counts[k] + 1];
      lives := lives[k := lives[k] - {c}];
      live := live - {c};
    }

    lemma LiveInside()
      requires Valid()
      ensures forall c :: c in live ==> c in repr
      ensures forall b :: b in blocks ==> b in repr
    {
      hide Block.Valid, Block.Live, Member, Members, Total;
      forall c | c in live
        ensures c in repr
      {
        var k := Owner(c);
        Elsewhere(k);
      }
    }

    // What clients write to their elements does not concern the heap.
    method Store(c: Cell<P>, p: P)
      requires Valid() && c in live
      modifies c`payload
      ensures Valid() && c.payload == p
    {
      hide Block.Valid, Block.Live, Member, Members, Total, Union;
      ghost var k := Owner(c);
      Elsewhere(k);
      var block := c.block;
      block.Store(c, p);
      IsMember(block);
      Refreshed(k, counts[k], lives[k]);
      assert counts[k := counts[k]] == counts && lives[k := lives[k]] == lives;
    }

    // Nothing is left to collect.
    ghost predicate Tidy()
      reads this`blocksAllocated, this`counts
    {
      blocksAllocated == 1 || forall k :: 0 <= k < |counts| ==> counts[k] != elemsPerBlock
    }

    lemma NoneFree()
      requires Valid()
      ensures freeElems < elemsPerBlock ==> forall k :: 0 <= k < |counts| ==> counts[k] != elemsPerBlock
    {
      forall k | 0 <= k < |counts|
        ensures counts[k] <= freeElems
      {
        TotalUpdate(counts, k, 0);
      }
    }

    // blockheap_garbagecollect
    method GarbageCollect()
      requires Valid()
      modifies this`blocksAllocated, this`freeElems, this`base, this`blocks, this`counts, this`lives, AsSet(blocks)`next
      ensures Valid() && live == old(live) && |old(blocks)| == |old(counts)|
      ensures blocks == Collected(old(blocks), old(counts), old(freeElems), elemsPerBlock)
      ensures counts == Collected(old(counts), old(counts), old(freeElems), elemsPerBlock)
      // a block goes exactly when it is wholly free and not the only one
      ensures forall i :: 0 <= i < |old(blocks)| ==>
        (old(blocks)[i] in blocks <==> old(counts)[i] != elemsPerBlock || |old(blocks)| == 1)
      ensures old(blocksAllocated) == 1 ==>
        blocks == old(blocks) && counts == old(counts) && blocksAllocated == 1 && freeElems == old(freeElems)
      ensures Tidy()
    {
      hide Valid, Kept;
      Sizes();
      NoneFree();
      KeptExactly(counts, counts, elemsPerBlock);
      KeptIff(blocks, counts, elemsPerBlock);
      if freeElems < elemsPerBlock || blocksAllocated == 1 {
        return;
      }
      Sweep();
      assert forall k :: 0 <= k < |counts| ==> counts[k] in counts;
    }

    // The loop of blockheap_garbagecollect.
    method Sweep()
      requires Valid()
      modifies this`blocksAllocated, this`freeElems, this`base, this`blocks, this`counts, this`lives, AsSet(blocks)`next
      ensures Valid() && live == old(live) && |old(blocks)| == |old(counts)|
      ensures blocks == Kept(old(blocks), old(counts), elemsPerBlock)
      ensures counts == Kept(old(counts), old(counts), elemsPerBlock)
    {
      hide Valid, Walk, Kept, RemoveAt, AsSet, Cursor;
      Sizes();
      ghost var bs, ks, n := blocks, counts, elemsPerBlock;
      ghost var i: nat := 0;
      ghost var kept: seq<Block<P>> := [];
      WalkStart(bs, ks, n);
      CursorStart();
      var last: Block?<P> := null;
      var walker := base;
      while walker != null
        invariant Walk(blocks, counts, kept, bs, ks, n, i) && Cursor(walker, last, |kept|)
        invariant Valid() && live == old(live)
        invariant AsSet(blocks) <= AsSet(bs)
        decreases |blocks| - |kept|
      {
        ghost var k := |kept|;
        CursorEnd(walker, last, k);
        WalkStep(blocks, counts, kept, bs, ks, n, i);
        ghost var b, full := blocks[k], counts[k] == n;
        walker, last := Visit(walker, last, k);
        i := i + 1;
        if !full {
          kept := kept + [b];
        }
      }
      CursorEnd(walker, last, |kept|);
      WalkEnd(blocks, counts, kept, bs, ks, n, i);
    }

    // walker is block k of the chain (null past its end), last the one before.
    ghost predicate Cursor(walker: Block?<P>, last: Block?<P>, k: nat)
      reads this`blocks
    {
      && k <= |blocks|
      && walker == (if k < |blocks| then blocks[k] else null)
      && last == (if k == 0 then null else blocks[k - 1])
    }

    lemma CursorStart()
      requires Valid()
      ensures Cursor(base, null, 0)
    {
    }

    lemma CursorEnd(walker: Block?<P>, last: Block?<P>, k: nat)
      requires Cursor(walker, last, k)
      ensures walker == null <==> k == |blocks|
      ensures k <= |blocks|
    {
    }

    // The body of the sweep loop.
    method Visit(walker: Block<P>, last: Block?<P>, ghost k: nat) returns (walker': Block?<P>, last': Block?<P>)
      requires Valid() && Cursor(walker, last, k)
      modifies this`blocksAllocated, this`freeElems, this`base, this`blocks, this`counts, this`lives, AsSet(blocks)`next
      ensures Valid() && AsSet(blocks) <= old(AsSet(blocks))
      ensures k < |old(counts)| == |old(blocks)|
      ensures old(counts[k]) == elemsPerBlock ==>
        && blocks == RemoveAt(old(blocks), k) && counts == RemoveAt(old(counts), k)
        && Cursor(walker', last', k)
      ensures old(counts[k]) != elemsPerBlock ==>
        && blocks == old(blocks) && counts == old(counts)
        && Cursor(walker', last', k + 1)
    {
      hide Valid;
      Sizes();
      ViewAt(k);
      if walker.freeList.length == elemsPerBlock {
        last' := last;
        walker' := Unlink(walker, last, k);
      } else {
        last' := walker;
        walker' := walker.next;
      }
    }

    lemma Sizes()
      requires Valid()
      ensures forall i, j :: 0 <= i < j < |blocks| ==> blocks[i] != blocks[j]
      ensures |blocks| == |counts| == blocksAllocated && elemsPerBlock > 0
      ensures base == if blocks == [] then null else blocks[0]
    {
    }

    lemma ViewAt(k: nat)
      requires Valid() && k < |blocks|
      ensures k < |counts| && blocks[k].freeList.length == counts[k]
      ensures blocks[k].next == if k + 1 < |blocks| then blocks[k + 1] else null
    {
      assert Member(blocks[k], counts[k], lives[k]);
    }

    // Taking one free block out of the chain.
    method Unlink(walker: Block<P>, last: Block?<P>, ghost k: nat) returns (next: Block?<P>)
      requires Valid() && k < |blocks| && walker == blocks[k] && counts[k] == elemsPerBlock
      requires last == if k == 0 then null else blocks[k - 1]
      modifies this`blocksAllocated, this`freeElems, this`base, this`blocks, this`counts, this`lives, AsSet(blocks)`next
      ensures Valid()
      ensures |old(counts)| == |old(blocks)|
      ensures blocks == RemoveAt(old(blocks), k) && counts == RemoveAt(old(counts), k)
      ensures next == if k < |blocks| then blocks[k] else null
      ensures k > 0 ==> blocks[k - 1] == old(blocks[k - 1])
      ensures AsSet(blocks) <= old(AsSet(blocks))
      ensures freeElems == old(freeElems) - elemsPerBlock && blocksAllocated == old(blocksAllocated) - 1
    {
      hide Block.Valid, Block.Live, Member, Members, Separate, Inside, Chain, RemoveAt, Total, Union;
      Elsewhere(k);
      SeparateRemove(k);
      TotalRemove(counts, k);
      UnionRemove(lives, k);
      MembersRemove(k);
      next := Bypass(walker, last, k);
      blocks, counts, lives := RemoveAt(blocks, k), RemoveAt(counts, k), RemoveAt(lives, k);
      blocksAllocated := blocksAllocated - 1;
      freeElems := freeElems - elemsPerBlock;
    }

    method Bypass(walker: Block<P>, last: Block?<P>, ghost k: nat) returns (next: Block?<P>)
      requires |counts| == |lives| == |blocks| && Inside(blocks)
      requires Separate(blocks) && Chain(blocks) && k < |blocks| && walker == blocks[k]
      requires last == if k == 0 then null else blocks[k - 1]
      requires Members(RemoveAt(blocks, k), RemoveAt(counts, k), RemoveAt(lives, k))
      modifies this`base, AsSet(blocks)`next
      ensures Members(RemoveAt(blocks, k), RemoveAt(counts, k), RemoveAt(lives, k))
      ensures Chain(RemoveAt(blocks, k))
      ensures next == if k + 1 < |blocks| then blocks[k + 1] else null
    {
      hide Block.Valid, Block.Live, Members;
      ghost var s, cs, ls := RemoveAt(blocks, k), RemoveAt(counts, k), RemoveAt(lives, k);
      SeparateRemove(k);
      if last != null {
        SetNext(last, walker.next, s, cs, ls);
        next := last.next;
      } else {
        SetBase(walker.next, s, cs, ls);
        next := base;
      }
    }

    method SetBase(n: Block?<P>, ghost bs: seq<Block<P>>, ghost ks: seq<nat>, ghost ls: seq<set<Cell<P>>>)
      requires Members(bs, ks, ls) && forall d :: d in bs ==> this !in d.repr
      modifies this`base
      ensures Members(bs, ks, ls) && base == n
    {
      base := n;
    }

    lemma SeparateRemove(k: nat)
      requires Separate(blocks) && Inside(blocks) && k < |blocks|
      ensures Separate(RemoveAt(blocks, k)) && Inside(RemoveAt(blocks, k))
      ensures forall b :: b in RemoveAt(blocks, k) ==> b in blocks
    {
      var s := RemoveAt(blocks, k);
      forall b | b in s
        ensures b in blocks
      {
        var i :| 0 <= i < |s| && s[i] == b;
        assert b == blocks[if i < k then i else i + 1];
      }
    }

    lemma MembersRemove(k: nat)
      requires Members(blocks, counts, lives) && k < |blocks|
      ensures Members(RemoveAt(blocks, k), RemoveAt(counts, k), RemoveAt(lives, k))
    {
      hide Member;
      var s := RemoveAt(blocks, k);
      forall i | 0 <= i < |s|
        ensures Member(s[i], RemoveAt(counts, k)[i], RemoveAt(lives, k)[i])
      {
        var j := if i < k then i else i + 1;
        assert Member(blocks[j], counts[j], lives[j]);
      }
    }
  }
}
