// src/pkg.c: the cache of package handles, reference-counted and swept by time.
module Pkg {
  import opened Base
  import opened Dlink
  import opened Balloc

  type Path = string

  // struct pkg_handle
  datatype PkgInfo = PkgInfo(name: Option<Path>, fd: int, refcnt: int, otime: int, pkgid: int)

  const ZERO := PkgInfo(None, 0, 0, 0, 0)

  type Handle = Cell<PkgInfo>

  // struct pkg_file_mapping, whose heap pkg_gc also collects
  datatype FileMapping = FileMapping(fd: int, len: nat, offset: int)

  // What the system answers during one pkg_open.
  datatype World = World(osRefuses: bool, fd: int, locking: bool, lockFails: bool, nodeRefuses: bool,
                         archiveOk: bool, pkgid: int, now: int) {
    predicate OpenFails() {
      fd < 0 || (locking && lockFails)
    }
  }

  // 1 for the handles that a sweep releases; times are what time returns at each.
  function Marks(infos: seq<PkgInfo>, times: seq<int>, lifetime: int): (r: seq<nat>)
    requires |infos| == |times|
    ensures |r| == |infos|
    ensures forall i :: 0 <= i < |r| ==>
      (r[i] == 1 <==> infos[i].refcnt == 0 && times[i] > infos[i].otime + lifetime)
  {
    seq(|infos|, i requires 0 <= i < |infos| =>
      if infos[i].refcnt == 0 && times[i] > infos[i].otime + lifetime then 1 else 0)
  }

  // What a sweep leaves.
  function Survivors<T>(hs: seq<T>, infos: seq<PkgInfo>, times: seq<int>, lifetime: int): seq<T>
    requires |hs| == |infos| == |times|
  {
    Kept(hs, Marks(infos, times, lifetime), 1)
  }

  // A handle leaves in a sweep if and only if nobody holds it and, at the time read there,
  // more than its lifetime has passed since it was last opened.
  lemma SurvivorsExactly<T>(hs: seq<T>, infos: seq<PkgInfo>, times: seq<int>, lifetime: int)
    requires |hs| == |infos| == |times| && forall i, j :: 0 <= i < j < |hs| ==> hs[i] != hs[j]
    ensures forall i :: 0 <= i < |hs| ==>
      (hs[i] !in Survivors(hs, infos, times, lifetime) <==>
        infos[i].refcnt == 0 && times[i] > infos[i].otime + lifetime)
    ensures forall h :: h in Survivors(hs, infos, times, lifetime) ==> h in hs
  {
    KeptIff(hs, Marks(infos, times, lifetime), 1);
    KeptExactly(hs, Marks(infos, times, lifetime), 1);
  }

  ghost function Infos(hs: seq<Handle>): (r: seq<PkgInfo>)
    reads hs`payload
    ensures |r| == |hs| && forall i :: 0 <= i < |hs| ==> r[i] == hs[i].payload
  {
    if hs == [] then [] else [hs[0].payload] + Infos(hs[1..])
  }

  // Who is listed, and how often each was opened without a close and closed without
  // an open.
  datatype Ledger = Ledger(listed: seq<Handle>, opens: multiset<Handle>, closes: multiset<Handle>)

  // The handles that are left keep their opens and closes, and what has gone had as
  // many stray closes as opens.
  ghost predicate Keeps(l: Ledger, l': Ledger) {
    && (forall h :: h in l'.listed ==>
          h in l.listed && l'.opens[h] == l.opens[h] && l'.closes[h] == l.closes[h])
    && forall h :: h in l.listed && h !in l'.listed ==> l.opens[h] == l.closes[h]
  }

  lemma KeepsStart(l: Ledger)
    ensures Keeps(l, l)
  {
  }

  lemma KeepsSteps(l: Ledger, l1: Ledger, l2: Ledger)
    requires Keeps(l, l1) && Keeps(l1, l2)
    ensures Keeps(l, l2)
  {
  }

  // Where every close matched an open, no open is lost.
  lemma MatchedKeepsAll(l: Ledger, l': Ledger)
    requires Keeps(l, l') && l.closes == multiset{}
    requires forall h :: h in l.opens ==> h in l.listed
    requires forall h :: h in l'.opens || h in l'.closes ==> h in l'.listed
    ensures l'.opens == l.opens && l'.closes == multiset{}
    ensures forall h :: h in l.opens ==> h in l'.listed
  {
    forall h
      ensures l'.opens[h] == l.opens[h]
    {
      if h in l.listed && h !in l'.listed {
        assert l.closes[h] == 0;
      }
    }
  }

  // s' is s and one more.
  predicate Extended<T(==)>(s: seq<T>, s': seq<T>) {
    |s'| == |s| + 1 && s'[..|s|] == s
  }

  lemma ExtendedSet<T>(s: seq<T>, s': seq<T>)
    requires Extended(s, s')
    ensures forall n :: n in s' && n !in s ==> n == s'[|s'| - 1]
  {
  }

  lemma SetOf<T>(s: seq<T>)
    ensures forall n :: n in AsSet(s) <==> n in s
  {
  }

  lemma OneLess<T>(m: multiset<T>, x: T)
    ensures forall y :: (m - multiset{x})[y] == m[y] - if y == x && x in m then 1 else 0
  {
  }

  lemma OneMoreOf<T>(m: multiset<T>, x: T)
    ensures forall y :: (m + multiset{x})[y] == m[y] + if y == x then 1 else 0
  {
  }

  // The globals of src/pkg.c.
  class Cache {
    const heap: BlockHeap<PkgInfo>      // heap_pkg
    const list: DList<Handle>           // pkg_list
    const lifetime: int                 // pkg_lifetime
    var dlinkCount: nat                 // dlink_count, as far as this list is concerned
    ghost var handles: seq<Handle>      // the handles on pkg_list
    ghost var unlisted: set<Handle>     // live cells that are not on it
    ghost var held: multiset<Handle>    // opens without their close
    ghost var stray: multiset<Handle>   // closes without an open

    // The list holds the handles, which are live cells of the heap.
    ghost predicate Linked()
      reads this`handles, this`unlisted, heap, heap.repr, heap.blocks, list, list.nodes
    {
      && heap.Valid() && list.Valid() && heap.zero == ZERO
      && list !in heap.repr && this !in heap.repr && (forall n :: n in list.nodes ==> n !in heap.repr)
      && |handles| == |list.nodes|
      && (forall i :: 0 <= i < |handles| ==> list.nodes[i].data == Some(handles[i]))
      && (forall i, j :: 0 <= i < j < |handles| ==> handles[i] != handles[j])
      && heap.live == AsSet(handles) + unlisted && AsSet(handles) !! unlisted
    }

    ghost predicate Named()
      reads this`handles, handles`payload
    {
      && (forall h :: h in handles ==> h.payload.name.Some?)
      && forall i, j :: 0 <= i < j < |handles| ==> handles[i].payload.name != handles[j].payload.name
    }

    ghost predicate Counted()
      reads this`handles, this`held, this`stray, handles`payload
    {
      && (forall h :: h in handles ==> h.payload.refcnt + stray[h] == held[h])
      && (forall h :: h in held ==> h in handles) && (forall h :: h in stray ==> h in handles)
    }

    ghost function Books(): Ledger
      reads this`handles, this`held, this`stray
    {
      Ledger(handles, held, stray)
    }

    ghost predicate Valid()
      reads this, heap, heap.repr, heap.blocks, list, list.nodes, handles
    {
      Linked() && Named() && Counted()
    }

    // pkg_init
    constructor (size: nat, perBlock: nat, life: int)
      requires size > 0 && perBlock > 0
      ensures Valid() && handles == [] && unlisted == {} && lifetime == life
      ensures held == stray == multiset{} && dlinkCount == 0
      ensures fresh(heap) && fresh(heap.repr) && fresh(list) && list.nodes == []
    {
      heap := new BlockHeap<PkgInfo>(size, perBlock, ZERO);
      list := new DList<Handle>();
      lifetime, dlinkCount := life, 0;
      handles, unlisted, held, stray := [], {}, multiset{}, multiset{};
    }

    // pkg_handle_byname
    method HandleByName(path: Path) returns (t: Cell?<PkgInfo>)
      requires Linked() && Named()
      ensures t == null ==> forall h :: h in handles ==> h.payload.name != Some(path)
      ensures t != null ==> t in handles && t.payload.name == Some(path)
    {
      hide BlockHeap.Valid;
      var ptr := list.head;
      ghost var i := 0;
      while ptr != null
        invariant i <= |handles| && ptr == (if i < |handles| then list.nodes[i] else null)
        invariant forall j :: 0 <= j < i ==> handles[j].payload.name != Some(path)
        decreases |handles| - i
      {
        assert ptr.data == Some(handles[i]);
        t := ptr.data.value;
        if t.payload.name == Some(path) {
          return;
        }
        ptr := ptr.next;
        i := i + 1;
      }
      t := null;
    }

    // pkg_findnode
    method FindNode(pkg: Handle) returns (r: DNode?<Handle>, ghost k: nat)
      requires Linked()
      ensures r == null <==> pkg !in handles
      ensures r != null ==> k < |handles| && handles[k] == pkg && list.nodes[k] == r && r.data == Some(pkg)
    {
      hide BlockHeap.Valid;
      r := list.head;
      k := 0;
      while r != null
        invariant k <= |handles| && r == (if k < |handles| then list.nodes[k] else null)
        invariant forall j :: 0 <= j < k ==> handles[j] != pkg
        decreases |handles| - k
      {
        assert r.data == Some(handles[k]);
        if r.data.value == pkg {
          return;
        }
        r := r.next;
        k := k + 1;
      }
    }

    // Writing to a handle.
    method Store(c: Handle, p: PkgInfo)
      requires Linked() && c in heap.live
      modifies c`payload
      ensures Linked() && c.payload == p
    {
      hide BlockHeap.Valid;
      heap.Store(c, p);
    }

    // blockheap_alloc on heap_pkg; null when the program exits there.
    method Alloc(osRefuses: bool) returns (t: Cell?<PkgInfo>)
      requires Linked()
      modifies this`unlisted, heap, heap.repr
      ensures t == null <==> old(heap.freeElems) == 0 && osRefuses
      ensures heap.repr >= old(heap.repr) && fresh(heap.repr - old(heap.repr))
      ensures t == null || Linked()
      ensures t != null ==>
        unlisted == old(unlisted) + {t} && t !in old(heap.live) && t !in handles && t.payload == ZERO
      ensures t != null ==> forall h :: h in old(heap.live) ==> h.payload == old(h.payload)
    {
      hide BlockHeap.Valid, DList.Valid;
      t := heap.Alloc(osRefuses);
      if t != null {
        unlisted := unlisted + {t};
      }
    }

    // dlink_add_tail_alloc, where dlink_create gets its node
    method Append(t: Handle)
      requires Linked() && t in unlisted
      modifies this`handles, this`unlisted, this`dlinkCount, list, list.nodes
      ensures dlinkCount == old(dlinkCount) + 1
      ensures Extended(old(list.nodes), list.nodes) && fresh(list.nodes[|list.nodes| - 1])
      ensures Linked() && handles == old(handles) + [t] && unlisted == old(unlisted) - {t}
    {
      hide BlockHeap.Valid, DList.Valid;
      list.TailIn();
      var m := new DNode<Handle>();
      dlinkCount := dlinkCount + 1;
      list.AddTail(t, m);
      handles := handles + [t];
      unlisted := unlisted - {t};
    }

    // dlink_delete on pkg_list
    method Detach(ptr: DNode<Handle>, ghost k: nat)
      requires Linked() && k < |handles| && list.nodes[k] == ptr
      modifies this`handles, this`unlisted, list, list.nodes
      ensures Linked() && handles == RemoveAt(old(handles), k) && unlisted == old(unlisted) + {old(handles[k])}
      ensures ptr.data == old(ptr.data) && list.nodes == RemoveAt(old(list.nodes), k)
    {
      hide BlockHeap.Valid, DList.Valid;
      list.Delete(ptr, k);
      unlisted := unlisted + {handles[k]};
      handles := RemoveAt(handles, k);
    }

    // blockheap_free on heap_pkg
    method Free(c: Handle)
      requires Linked() && c in unlisted
      modifies this`unlisted, heap, heap.repr
      ensures Linked() && heap.repr == old(heap.repr)
      ensures unlisted == old(unlisted) - {c} && heap.live == old(heap.live) - {c}
      ensures forall h :: h in old(heap.live) && h != c ==> h.payload == old(h.payload)
    {
      hide BlockHeap.Valid, DList.Valid;
      var _ := heap.Free(c);
      unlisted := unlisted - {c};
    }

    lemma Apartness()
      requires Linked()
      ensures this !in heap.repr && list !in heap.repr
    {
    }

    lemma Facts()
      requires Linked()
      ensures forall i, j :: 0 <= i < j < |handles| ==> handles[i] != handles[j]
      ensures heap.live == AsSet(handles) + unlisted && |list.nodes| == |handles|
      ensures forall h :: h in handles ==> h in heap.live && h !in unlisted
      ensures forall h :: h in unlisted ==> h in heap.live && h !in handles
      ensures list !in heap.repr && this !in heap.repr
      ensures forall h :: h in heap.live ==> h in heap.repr
    {
      heap.LiveInside();
      assert forall h :: h in handles ==> h in AsSet(handles);
    }

    // pkg_release: a handle that is not on the list is scrubbed but stays allocated;
    // the list node of one that is on it is not given back, so dlink_count stays.
    method Release(pkg: Handle, ghost i: nat)
      requires Linked() && pkg in heap.live && i <= |handles|
      requires if i < |handles| then handles[i] == pkg else pkg !in handles
      modifies this`handles, this`unlisted, heap, heap.repr, list, list.nodes, pkg`payload
      ensures Linked() && unlisted == old(unlisted) && heap.repr == old(heap.repr)
      ensures handles == if i < |old(handles)| then RemoveAt(old(handles), i) else old(handles)
      ensures i < |old(handles)| ==> i < |old(list.nodes)| && list.nodes == RemoveAt(old(list.nodes), i)
      ensures i == |old(handles)| ==> list.nodes == old(list.nodes)
      ensures heap.live == old(heap.live) - (if i < |old(handles)| then {pkg} else {})
      ensures i == |old(handles)| ==>
        pkg.payload == old(pkg.payload).(name := None, fd := if old(pkg.payload.fd) == 0 then 0 else -1)
      ensures forall h :: h in old(heap.live) && h != pkg ==> h.payload == old(h.payload)
    {
      hide Linked;
      Facts();
      var p := pkg.payload;
      p := p.(name := None);
      if p.fd != 0 {
        p := p.(fd := -1);
      }
      Store(pkg, p);
      var ptr, k := FindNode(pkg);
      if ptr != null {
        Detach(ptr, k);
        Facts();
        Free(ptr.data.value);
        Facts();
      }
    }

    // Writing to a listed handle, without renaming it.
    method Update(h: Handle, p: PkgInfo)
      requires Linked() && Named() && h in handles && p.name == h.payload.name
      modifies h`payload
      ensures Linked() && Named() && h.payload == p
    {
      hide Linked;
      Facts();
      Store(h, p);
    }

    // pkg_close
    method Close(pkg: Handle)
      requires Valid() && pkg in handles
      modifies this`held, this`stray, pkg`payload
      ensures Valid() && pkg.payload == old(pkg.payload).(refcnt := old(pkg.payload.refcnt) - 1)
      ensures held == old(held) - multiset{pkg}
      ensures stray == if pkg in old(held) then old(stray) else old(stray) + multiset{pkg}
    {
      hide Linked, Named;
      Apartness();
      Update(pkg, pkg.payload.(refcnt := pkg.payload.refcnt - 1));
      NoteClose(pkg);
    }

    ghost method NoteClose(pkg: Handle)
      requires pkg in handles && pkg.payload.refcnt + 1 + stray[pkg] == held[pkg]
      requires forall h :: h in handles && h != pkg ==> h.payload.refcnt + stray[h] == held[h]
      requires (forall h :: h in held ==> h in handles) && (forall h :: h in stray ==> h in handles)
      modifies this`held, this`stray
      ensures Counted() && held == old(held) - multiset{pkg}
      ensures stray == if pkg in old(held) then old(stray) else old(stray) + multiset{pkg}
    {
      OneLess(held, pkg);
      OneMoreOf(stray, pkg);
      if pkg !in held {
        stray := stray + multiset{pkg};
      }
      held := held - multiset{pkg};
    }

    ghost predicate Cached(path: Path)
      reads this`handles, handles`payload
    {
      exists h :: h in handles && h.payload.name == Some(path)
    }

    // The part of pkg_open for a package that is not cached: a new handle ...
    method Create(path: Path, w: World) returns (t: Cell?<PkgInfo>)
      requires Valid()
      modifies this`unlisted, heap, heap.repr
      ensures t == null <==> old(heap.freeElems) == 0 && w.osRefuses
      ensures heap.repr >= old(heap.repr) && fresh(heap.repr - old(heap.repr))
      ensures t != null ==> Valid() && forall h :: h in handles ==> h.payload == old(h.payload)
      ensures t != null ==>
        && t !in old(unlisted) && unlisted == old(unlisted) + {t}
        && t.payload == PkgInfo(Some(path), w.fd, 0, 0, w.pkgid)
    {
      hide Linked;
      Facts();
      t := Alloc(w.osRefuses);
      if t == null {
        return;
      }
      Facts();
      Store(t, t.payload.(name := Some(path), pkgid := w.pkgid, fd := w.fd));
    }

    // Failing: the handle is on no list, so it is not freed.
    method Discard(t: Handle)
      requires Valid() && t in unlisted
      modifies this`handles, this`unlisted, heap, heap.repr, list, list.nodes
      ensures Valid() && handles == old(handles) && unlisted == old(unlisted) && heap.repr == old(heap.repr)
      ensures list.nodes == old(list.nodes)
      ensures forall h :: h in handles ==> h.payload == old(h.payload)
    {
      hide Linked;
      Facts();
      Release(t, |handles|);
    }

    method Enlist(t: Handle)
      requires Valid() && t in unlisted && t.payload.name.Some? && t.payload.refcnt == 0
      requires forall h :: h in handles ==> h.payload.name != t.payload.name
      modifies this`handles, this`unlisted, this`dlinkCount, list, list.nodes
      ensures dlinkCount == old(dlinkCount) + 1
      ensures Extended(old(list.nodes), list.nodes) && fresh(list.nodes[|list.nodes| - 1])
      ensures Valid() && handles == old(handles) + [t] && unlisted == old(unlisted) - {t}
      ensures t !in old(handles)
    {
      hide Linked;
      Facts();
      Append(t);
      Facts();
    }

    // ... which goes on the cache list if its file can be opened and locked.
    method Import(path: Path, w: World) returns (t: Cell?<PkgInfo>, exited: bool)
      requires Valid() && !Cached(path)
      modifies this`handles, this`unlisted, this`dlinkCount, heap, heap.repr, list, list.nodes
      ensures exited <==> (old(heap.freeElems) == 0 && w.osRefuses) || (!w.OpenFails() && w.nodeRefuses)
      ensures dlinkCount == old(dlinkCount) + |handles| - |old(handles)|
      ensures heap.repr >= old(heap.repr) && fresh(heap.repr - old(heap.repr))
      ensures !exited ==> Valid() && forall h :: h in old(handles) ==> h.payload == old(h.payload)
      ensures !exited && w.OpenFails() ==>
        && t == null && handles == old(handles) && list.nodes == old(list.nodes)
        && old(unlisted) < unlisted && |unlisted| == |old(unlisted)| + 1
      ensures !exited && !w.OpenFails() ==>
        && t != null && t !in old(handles) && handles == old(handles) + [t] && unlisted == old(unlisted)
        && t.payload == PkgInfo(Some(path), w.fd, 0, 0, w.pkgid)
      ensures !exited ==> forall n :: n in list.nodes && n !in old(list.nodes) ==> fresh(n)
    {
      hide Linked, Named, Counted, Extended, AsSet;
      Apartness();
      t := Create(path, w);
      exited := t == null;
      if exited {
        return;
      }
      Apartness();
      if w.fd < 0 {
        Discard(t);
        return null, false;
      }
      if w.locking && w.lockFails {
        Discard(t);
        return null, false;
      }
      if w.nodeRefuses {
        return t, true;
      }
      Enlist(t);
      ExtendedSet(old(list.nodes), list.nodes);
    }

    // pkg_open
    method Open(path: Path, w: World) returns (t: Cell?<PkgInfo>, exited: bool)
      requires Valid()
      modifies this`handles, this`unlisted, this`held, this`dlinkCount, heap, heap.repr, list, list.nodes
      ensures exited <==>
        && !old(Cached(path))
        && ((old(heap.freeElems) == 0 && w.osRefuses) || (w.fd >= 0 && !(w.locking && w.lockFails) && w.nodeRefuses))
      ensures !exited ==> Valid()
      ensures dlinkCount == old(dlinkCount) + |handles| - |old(handles)|
      // a cached package is used again
      ensures old(Cached(path)) ==>
        && t != null && t in handles && handles == old(handles) && unlisted == old(unlisted)
        && held == old(held) + multiset{t} && old(t.payload.name) == Some(path)
        && t.payload == old(t.payload).(refcnt := old(t.payload.refcnt) + 1, otime := w.now)
      // a package that cannot be opened or locked leaks its cell
      ensures !old(Cached(path)) && !exited && (w.fd < 0 || (w.locking && w.lockFails)) ==>
        && t == null && handles == old(handles) && held == old(held)
        && old(unlisted) < unlisted && |unlisted| == |old(unlisted)| + 1
      // one with a bad archive stays cached, without a client
      ensures !old(Cached(path)) && !exited && w.fd >= 0 && !(w.locking && w.lockFails) ==>
        && |handles| == |old(handles)| + 1 && handles[..|handles| - 1] == old(handles) && unlisted == old(unlisted)
        && (!w.archiveOk ==>
              t == null && held == old(held)
              && handles[|handles| - 1].payload == PkgInfo(Some(path), w.fd, 0, 0, w.pkgid))
        && (w.archiveOk ==>
              t == handles[|handles| - 1] && held == old(held) + multiset{t}
              && t.payload == PkgInfo(Some(path), w.fd, 1, w.now, w.pkgid))
      ensures !exited ==> forall h :: h in old(handles) && h != t ==> h.payload == old(h.payload)
      ensures heap.repr >= old(heap.repr) && fresh(heap.repr - old(heap.repr))
      ensures !exited ==> forall n :: n in list.nodes && n !in old(list.nodes) ==> fresh(n)
    {
      hide Linked, Counted, AsSet;
      exited := false;
      Facts();
      t := HandleByName(path);
      if t == null {
        t, exited := Import(path, w);
        if exited || t == null {
          return;
        }
        if !w.archiveOk {
          return null, false;
        }
      }
      Facts();
      Reference(t, w.now);
    }

    // The end of pkg_open.
    method Reference(t: Handle, now: int)
      requires Valid() && t in handles
      modifies this`held, t`payload
      ensures Valid() && held == old(held) + multiset{t}
      ensures t.payload == old(t.payload).(refcnt := old(t.payload.refcnt) + 1, otime := now)
    {
      hide Linked, Named;
      Apartness();
      OneMoreOf(held, t);
      Update(t, t.payload.(otime := now));
      Update(t, t.payload.(refcnt := t.payload.refcnt + 1));
      held := held + multiset{t};
    }

    lemma NodeAt(k: nat)
      requires Linked() && k < |handles|
      ensures |list.nodes| == |handles| && list.nodes[k].data == Some(handles[k])
      ensures list.nodes[k].next == if k + 1 < |handles| then list.nodes[k + 1] else null
    {
      hide BlockHeap.Valid;
    }

    // ptr is node k of the list; null past its end.
    ghost predicate Cursor(ptr: DNode?<Handle>, k: nat)
      reads this`handles, list`nodes
    {
      k <= |handles| == |list.nodes| && ptr == if k < |handles| then list.nodes[k] else null
    }

    lemma CursorStart()
      requires Linked()
      ensures Cursor(list.head, 0)
    {
      hide BlockHeap.Valid;
    }

    // pkg_release on a listed handle
    method Evict(p: Handle, ghost k: nat, ghost ns: set<DNode<Handle>>)
      requires Linked() && Named() && k < |handles| && p == handles[k] && AsSet(list.nodes) <= ns
      modifies this`handles, this`unlisted, heap, heap.repr, list, ns
      ensures Linked() && Named() && unlisted == old(unlisted) && heap.repr == old(heap.repr)
      ensures handles == RemoveAt(old(handles), k) && p !in handles
      ensures |list.nodes| == |old(list.nodes)| - 1 && list.nodes == RemoveAt(old(list.nodes), k)
      ensures AsSet(list.nodes) <= ns
      ensures forall h :: h in old(handles) && h != p ==> h in handles
      ensures forall h :: h in handles ==> h in old(handles) && h.payload == old(h.payload)
    {
      hide Linked;
      Facts();
      Released(k);
      Release(p, k);
      Facts();
    }

    // ... which nobody holds any more than it was closed in excess
    method Drop(p: Handle, ghost k: nat, ghost ns: set<DNode<Handle>>)
      requires Valid() && k < |handles| && p == handles[k] && p.payload.refcnt == 0 && AsSet(list.nodes) <= ns
      modifies this`handles, this`unlisted, this`held, this`stray, heap, heap.repr, list, ns
      ensures Valid() && unlisted == old(unlisted) && heap.repr == old(heap.repr)
      ensures handles == RemoveAt(old(handles), k) && AsSet(list.nodes) <= ns
      ensures |list.nodes| == |old(list.nodes)| - 1 && list.nodes == RemoveAt(old(list.nodes), k)
      ensures forall h :: h in handles ==> h in old(handles) && h.payload == old(h.payload)
      ensures Keeps(old(Books()), Books())
    {
      hide Linked, Named, AsSet, Keeps;
      ghost var hs := handles;
      Apartness();
      Evict(p, k, ns);
      Apartness();
      NoteRelease(p, hs);
    }

    // The body of pkg_gc's loop.
    method Visit(ptr: DNode<Handle>, now: int, ghost k: nat, ghost ns: set<DNode<Handle>>)
      requires Valid() && k < |handles| && Cursor(ptr, k) && AsSet(list.nodes) <= ns
      modifies this`handles, this`unlisted, this`held, this`stray, heap, heap.repr, list, ns
      ensures Valid() && unlisted == old(unlisted) && heap.repr == old(heap.repr)
      ensures var p := old(handles[k].payload);
        if p.refcnt == 0 && now > p.otime + lifetime
        then
          && handles == RemoveAt(old(handles), k)
          && |list.nodes| == |old(list.nodes)| - 1 && list.nodes == RemoveAt(old(list.nodes), k)
        else handles == old(handles) && list.nodes == old(list.nodes)
      ensures AsSet(list.nodes) <= ns
      ensures forall h :: h in handles ==> h in old(handles) && h.payload == old(h.payload)
      ensures Keeps(old(Books()), Books())
    {
      hide Linked, Named, Counted, AsSet, Keeps, Books;
      NodeAt(k);
      Facts();
      var p := ptr.data.value;
      KeepsStart(Books());
      if p.payload.refcnt == 0 && now > p.payload.otime + lifetime {
        Drop(p, k, ns);
      }
    }

    ghost method NoteRelease(p: Handle, hs: seq<Handle>)
      requires p !in handles && held[p] == stray[p]
      requires forall h :: h in hs <==> h == p || h in handles
      requires forall h :: h in handles ==> h.payload.refcnt + stray[h] == held[h]
      requires (forall h :: h in held ==> h in hs) && (forall h :: h in stray ==> h in hs)
      modifies this`held, this`stray
      ensures Counted() && Keeps(Ledger(hs, old(held), old(stray)), Books())
    {
      held := held[p := 0];
      stray := stray[p := 0];
    }

    lemma Released(k: nat)
      requires Linked() && k < |handles|
      ensures forall h :: h in handles <==> h == handles[k] || h in RemoveAt(handles, k)
      ensures handles[k] !in RemoveAt(handles, k)
    {
      hide BlockHeap.Valid, DList.Valid;
      forall h | h in handles && h != handles[k]
        ensures h in RemoveAt(handles, k)
      {
        var i :| 0 <= i < |handles| && handles[i] == h;
        assert RemoveAt(handles, k)[if i < k then i else i - 1] == h;
      }
    }

    // blockheap_garbagecollect on heap_pkg
    method Collect()
      requires Valid()
      modifies heap, heap.repr
      ensures heap.repr == old(heap.repr) && list.nodes == old(list.nodes) && heap.Tidy()
      ensures Valid() && heap.live == old(heap.live)
      ensures forall h :: h in handles ==> h.payload == old(h.payload)
    {
      hide BlockHeap.Valid, DList.Valid;
      heap.LiveInside();
      heap.GarbageCollect();
    }

    // What the loop of pkg_gc sees at its cursor.
    lemma Here(ptr: DNode?<Handle>, kept: seq<Handle>, cs: seq<nat>, hs: seq<Handle>, marks: seq<nat>, i: nat)
      requires Linked() && Walk(handles, cs, kept, hs, marks, 1, i) && Cursor(ptr, |kept|)
      ensures ptr == null <==> |kept| == |handles|
      ensures |kept| <= |handles| == |cs|
      ensures ptr != null ==>
        && i < |hs| == |marks| && handles[|kept|] == hs[i] && cs[|kept|] == marks[i]
        && |list.nodes| == |handles| && ptr == list.nodes[|kept|]
        && ptr.next == if |kept| + 1 < |handles| then list.nodes[|kept| + 1] else null
    {
      hide BlockHeap.Valid, Kept;
      if ptr != null {
        NodeAt(|kept|);
        SplitTail(handles, kept, hs, i);
        SplitTail(cs, Kept(marks[..i], marks[..i], 1), marks, i);
      }
    }

    // The heap of file mappings shares nothing with the cache.
    ghost predicate Aside(files: BlockHeap<FileMapping>)
      reads heap, list, files
    {
      && files.repr !! heap.repr && files !in heap.repr && heap !in files.repr
      && this !in files.repr && list !in files.repr && forall n :: n in list.nodes ==> n !in files.repr
    }

    // pkg_gc; times are what its calls of time return, handle by handle.
    method Gc(times: seq<int>, files: BlockHeap<FileMapping>)
      requires Valid() && |times| == |handles| && files.Valid() && Aside(files)
      modifies this`handles, this`unlisted, this`held, this`stray, heap, heap.repr, list, list.nodes
      modifies files, files.repr
      ensures Valid() && unlisted == old(unlisted)
      ensures handles == Survivors(old(handles), old(Infos(handles)), times, lifetime)
      ensures forall i :: 0 <= i < |times| ==> var h := old(handles)[i];
        h !in handles <==> old(h.payload.refcnt) == 0 && times[i] > old(h.payload.otime) + lifetime
      ensures forall h :: h in handles ==> h in old(handles) && h.payload == old(h.payload)
      ensures Keeps(old(Books()), Books())
      ensures heap.repr == old(heap.repr) && AsSet(list.nodes) <= old(AsSet(list.nodes))
      ensures files.Valid() && files.live == old(files.live) && files.repr == old(files.repr)
      ensures heap.Tidy() && files.Tidy() && |old(files.blocks)| == |old(files.counts)|
      ensures files.blocks == Collected(old(files.blocks), old(files.counts), old(files.freeElems), files.elemsPerBlock)
    {
      hide Linked, Named, Counted, Infos, Survivors, AsSet, Keeps, Books, Collected;
      Facts();
      SurvivorsExactly(handles, Infos(handles), times, lifetime);
      SetOf(list.nodes);
      Sweep(times);
      SetOf(list.nodes);
      CollectFiles(files);
      Apartness();
      Collect();
    }

    method CollectFiles(files: BlockHeap<FileMapping>)
      requires Valid() && files.Valid() && Aside(files)
      modifies files, files.repr
      ensures Valid() && files.Valid() && files.live == old(files.live) && files.repr == old(files.repr)
      ensures heap.repr == old(heap.repr) && list.nodes == old(list.nodes)
      ensures files.Tidy() && |old(files.blocks)| == |old(files.counts)|
      ensures files.blocks == Collected(old(files.blocks), old(files.counts), old(files.freeElems), files.elemsPerBlock)
      ensures forall h :: h in handles ==> h.payload == old(h.payload)
    {
      hide BlockHeap.Valid, DList.Valid;
      files.LiveInside();
      heap.LiveInside();
      files.GarbageCollect();
    }

    method Sweep(times: seq<int>)
      requires Valid() && |times| == |handles|
      modifies this`handles, this`unlisted, this`held, this`stray, heap, heap.repr, list, list.nodes
      ensures Valid() && unlisted == old(unlisted) && heap.repr == old(heap.repr)
      ensures handles == Survivors(old(handles), old(Infos(handles)), times, lifetime)
      ensures forall h :: h in handles ==> h in old(handles) && h.payload == old(h.payload)
      ensures AsSet(list.nodes) <= old(AsSet(list.nodes))
      ensures Keeps(old(Books()), Books())
    {
      hide Linked, Named, Counted, Walk, Infos, Kept, Keeps, Books, AsSet;
      ghost var ns := AsSet(list.nodes);
      SetOf(list.nodes);
      ghost var books := Books();
      ghost var hs, marks := handles, Marks(Infos(handles), times, lifetime);
      ghost var kept, cs := [], marks;
      WalkStart(hs, marks, 1);
      KeepsStart(books);
      CursorStart();
      var i := 0;
      var ptr := list.head;
      while ptr != null
        invariant Valid() && unlisted == old(unlisted) && heap.repr == old(heap.repr)
        invariant AsSet(list.nodes) <= ns
        invariant Walk(handles, cs, kept, hs, marks, 1, i) && Cursor(ptr, |kept|)
        invariant forall h :: h in handles ==> h in old(handles) && h.payload == old(h.payload)
        invariant Keeps(books, Books())
        decreases |hs| - i
      {
        Here(ptr, kept, cs, hs, marks, i);
        WalkStep(handles, cs, kept, hs, marks, 1, i);
        var tptr := ptr.next;
        ghost var k, p := |kept|, handles[|kept|];
        ghost var books1 := Books();
        Visit(ptr, times[i], k, ns);
        KeepsSteps(books, books1, Books());
        Facts();
        if marks[i] == 1 {
          cs := RemoveAt(cs, k);
        } else {
          kept := kept + [p];
        }
        i := i + 1;
        ptr := tptr;
      }
      Here(ptr, kept, cs, hs, marks, i);
      WalkEnd(handles, cs, kept, hs, marks, 1, i);
    }
  }
}
