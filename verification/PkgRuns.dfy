// Whole runs of src/pkg.c: any sequence of opens, closes and sweeps.
module PkgRuns {
  import opened Base
  import opened Balloc
  import opened Dlink
  import opened Pkg
  import T = Timestr

  // A client closes what is cached under a name, whether it holds it or not; times are
  // what time returns at the handles a sweep meets.
  datatype Request = OpenReq(path: Path, w: World) | CloseReq(path: Path) | SweepReq(times: nat -> int)

  datatype Event =
    | Started
    | Opened(path: Path, w: World, h: Handle)
    | Failed(path: Path, w: World)
    | Closed(path: Path, h: Handle)
    | NothingToClose(path: Path)
    | Swept(times: seq<int>)

  // What has happened, with the cache list and the contents of its handles afterwards.
  datatype Entry = Entry(event: Event, cached: seq<Handle>, infos: seq<PkgInfo>)

  // The opens that have not been closed.
  ghost function Outstanding(trace: seq<Entry>): multiset<Handle> {
    if trace == [] then multiset{}
    else After(Outstanding(trace[..|trace| - 1]), trace[|trace| - 1].event)
  }

  ghost function After(held: multiset<Handle>, ev: Event): multiset<Handle> {
    match ev
    case Opened(_, _, h) => held + multiset{h}
    case Closed(_, h) => held - multiset{h}
    case _ => held
  }

  // Every close matches an open.
  ghost predicate Matched(trace: seq<Entry>) {
    trace == [] || (Matched(trace[..|trace| - 1]) && Allowed(trace[|trace| - 1].event, trace[..|trace| - 1]))
  }

  ghost predicate Allowed(ev: Event, trace: seq<Entry>) {
    ev.Closed? ==> ev.h in Outstanding(trace)
  }

  // Opens less closes, whether they match or not.
  ghost function Net(trace: seq<Entry>, h: Handle): int {
    if trace == [] then 0 else Net(trace[..|trace| - 1], h) + Change(trace[|trace| - 1].event, h)
  }

  ghost function Change(ev: Event, h: Handle): int {
    match ev
    case Opened(_, _, t) => if t == h then 1 else 0
    case Closed(_, t) => if t == h then -1 else 0
    case _ => 0
  }

  predicate Unknown(e: Entry, path: Path) {
    forall i :: 0 <= i < |e.infos| ==> e.infos[i].name != Some(path)
  }

  // At the handle h the contents become what f makes of them.
  ghost predicate Turned(a: Entry, b: Entry, h: Handle, f: PkgInfo -> PkgInfo) {
    && b.cached == a.cached && |a.infos| == |b.infos| == |a.cached|
    && forall i :: 0 <= i < |a.infos| ==> b.infos[i] == if a.cached[i] == h then f(a.infos[i]) else a.infos[i]
  }

  // h is put on the list, with contents p.
  ghost predicate Joined(a: Entry, b: Entry, h: Handle, p: PkgInfo) {
    && h !in a.cached && b.cached == a.cached + [h] && b.infos == a.infos + [p]
  }

  ghost predicate Names(a: Entry, path: Path, h: Handle) {
    exists i :: 0 <= i < |a.infos| && i < |a.cached| && a.infos[i].name == Some(path) && a.cached[i] == h
  }

  // What a call does to the cache list and to the contents of its handles.
  ghost predicate Step(a: Entry, b: Entry, lifetime: int) {
    match b.event
    case Started => false
    case Opened(path, w, h) =>
      if Unknown(a, path)
      then !w.OpenFails() && w.archiveOk && Joined(a, b, h, PkgInfo(Some(path), w.fd, 1, w.now, w.pkgid))
      else
        && Names(a, path, h)
        && Turned(a, b, h, (p: PkgInfo) => p.(refcnt := p.refcnt + 1, otime := w.now))
    case Failed(path, w) =>
      && Unknown(a, path)
      && if w.OpenFails() then b.cached == a.cached && b.infos == a.infos
         else
           && !w.archiveOk && b.cached != []
           && Joined(a, b, b.cached[|b.cached| - 1], PkgInfo(Some(path), w.fd, 0, 0, w.pkgid))
    case Closed(path, h) => Names(a, path, h) && Turned(a, b, h, (p: PkgInfo) => p.(refcnt := p.refcnt - 1))
    case NothingToClose(path) => Unknown(a, path) && b.cached == a.cached && b.infos == a.infos
    case Swept(times) =>
      && |times| == |a.cached| == |a.infos|
      && b.cached == Survivors(a.cached, a.infos, times, lifetime)
      && b.infos == Survivors(a.infos, a.infos, times, lifetime)
  }

  // The call that a request stands for.
  ghost predicate Answers(req: Request, ev: Event) {
    match req
    case OpenReq(path, w) => ev == Failed(path, w) || (ev.Opened? && ev == Opened(path, w, ev.h))
    case CloseReq(path) => ev == NothingToClose(path) || (ev.Closed? && ev == Closed(path, ev.h))
    case SweepReq(times) => ev.Swept? && forall i :: 0 <= i < |ev.times| ==> ev.times[i] == times(i)
  }

  // Where the program ends: a new handle or its list node cannot be had.
  ghost predicate Exits(req: Request, a: Entry) {
    && req.OpenReq? && Unknown(a, req.path)
    && (req.w.osRefuses || (!req.w.OpenFails() && req.w.nodeRefuses))
  }

  // Handles and names are unique on the list.
  ghost predicate WellNamed(e: Entry) {
    && |e.cached| == |e.infos|
    && (forall i, j :: 0 <= i < j < |e.cached| ==> e.cached[i] != e.cached[j])
    && (forall i :: 0 <= i < |e.infos| ==> e.infos[i].name.Some?)
    && forall i, j :: 0 <= i < j < |e.infos| ==> e.infos[i].name != e.infos[j].name
  }

  // The record of a run from pkg_init on.
  ghost predicate Sound(trace: seq<Entry>, lifetime: int) {
    && |trace| > 0 && trace[0] == Entry(Started, [], [])
    && (forall k :: 0 <= k < |trace| ==> WellNamed(trace[k]))
    && forall k :: 0 < k < |trace| ==> Step(trace[k - 1], trace[k], lifetime)
  }

  lemma More(trace: seq<Entry>, e: Entry)
    ensures Outstanding(trace + [e]) == After(Outstanding(trace), e.event)
    ensures Matched(trace + [e]) <==> Matched(trace) && Allowed(e.event, trace)
  {
    hide After, Allowed;
    assert (trace + [e])[..|trace|] == trace;
  }

  lemma SoundMore(trace: seq<Entry>, e: Entry, lifetime: int)
    requires Sound(trace, lifetime) && WellNamed(e) && Step(trace[|trace| - 1], e, lifetime)
    ensures Sound(trace + [e], lifetime)
  {
    hide Step, WellNamed;
  }

  lemma StartMatched(trace: seq<Entry>)
    requires |trace| == 1 && trace[0].event == Started
    ensures Outstanding(trace) == multiset{} && Matched(trace)
  {
    assert trace[..0] == [] && Matched(trace[..0]);
  }

  // ------------------------------------------------------------ what every run keeps

  // A sweep removes a handle exactly when its refcnt is 0 and its lifetime has passed; the
  // others keep their contents.
  lemma SweptExactly(a: Entry, b: Entry, lifetime: int)
    requires WellNamed(a) && Step(a, b, lifetime) && b.event.Swept?
    ensures var times := b.event.times;
      && |times| == |a.cached| == |a.infos| && |b.cached| == |b.infos|
      && forall i :: 0 <= i < |times| ==>
        (a.cached[i] !in b.cached <==> a.infos[i].refcnt == 0 && times[i] > a.infos[i].otime + lifetime)
    ensures forall j :: 0 <= j < |b.cached| ==> b.cached[j] in a.cached
    ensures forall i, j :: 0 <= i < |a.cached| && 0 <= j < |b.cached| && a.cached[i] == b.cached[j] ==>
      b.infos[j] == a.infos[i]
  {
    hide Kept;
    var times := b.event.times;
    SurvivorsExactly(a.cached, a.infos, times, lifetime);
    KeptPairs(a.cached, a.infos, Marks(a.infos, times, lifetime), 1);
    forall i, j | 0 <= i < |a.cached| && 0 <= j < |b.cached| && a.cached[i] == b.cached[j]
      ensures b.infos[j] == a.infos[i]
    {
      assert b.cached[j] == Kept(a.cached, Marks(a.infos, times, lifetime), 1)[j];
    }
  }

  // Where h is cached its refcnt is x; where it is not, x is 0.
  ghost predicate Balanced(e: Entry, h: Handle, x: int) {
    && |e.cached| == |e.infos|
    && (forall i :: 0 <= i < |e.cached| && e.cached[i] == h ==> e.infos[i].refcnt == x)
    && (h !in e.cached ==> x == 0)
  }

  lemma BalancedStep(a: Entry, b: Entry, h: Handle, x: int, lifetime: int)
    requires WellNamed(a) && Step(a, b, lifetime) && Balanced(a, h, x)
    ensures Balanced(b, h, x + Change(b.event, h))
  {
    if b.event.Swept? {
      SweptExactly(a, b, lifetime);
    }
  }

  lemma {:induction false} NetBalances(trace: seq<Entry>, h: Handle, lifetime: int)
    requires Sound(trace, lifetime)
    ensures Balanced(trace[|trace| - 1], h, Net(trace, h))
  {
    var n := |trace| - 1;
    if n > 0 {
      hide Step, Change, WellNamed, Balanced;
      NetBalances(trace[..n], h, lifetime);
      BalancedStep(trace[n - 1], trace[n], h, Net(trace[..n], h), lifetime);
    } else {
      assert trace[..0] == [];
    }
  }

  // In every run refcnt is the number of opens less the number of closes, and a handle
  // that is not cached has had as many of the one as of the other.
  lemma RefcntIsNet(trace: seq<Entry>, lifetime: int)
    requires Sound(trace, lifetime)
    ensures var e := trace[|trace| - 1];
      && |e.cached| == |e.infos|
      && (forall i :: 0 <= i < |e.cached| ==> e.infos[i].refcnt == Net(trace, e.cached[i]))
      && forall h :: h !in e.cached ==> Net(trace, h) == 0
  {
    hide Step, Net;
    var e := trace[|trace| - 1];
    assert WellNamed(e);
    forall i | 0 <= i < |e.cached|
      ensures e.infos[i].refcnt == Net(trace, e.cached[i])
    {
      NetBalances(trace, e.cached[i], lifetime);
    }
    forall h | h !in e.cached
      ensures Net(trace, h) == 0
    {
      NetBalances(trace, h, lifetime);
    }
  }

  lemma {:induction false} MatchedNet(trace: seq<Entry>, h: Handle)
    requires Matched(trace)
    ensures Net(trace, h) == Outstanding(trace)[h]
  {
    if trace != [] {
      MatchedNet(trace[..|trace| - 1], h);
    }
  }

  // h is cached and was last opened at time t or later.
  ghost predicate OpenedSince(e: Entry, h: Handle, t: int) {
    exists i :: 0 <= i < |e.cached| && i < |e.infos| && e.cached[i] == h && e.infos[i].otime >= t
  }

  // Whatever happens to it, a package that was opened stays cached for its lifetime: until
  // a sweep reads a later time, if no open of it in between has read an earlier one.
  lemma {:induction false} StaysCached(trace: seq<Entry>, k: nat, j: nat, lifetime: int)
    requires Sound(trace, lifetime) && k <= j < |trace| && trace[k].event.Opened?
    requires forall m :: k < m <= j && trace[m].event.Swept? ==>
      forall i :: 0 <= i < |trace[m].event.times| ==> trace[m].event.times[i] <= trace[k].event.w.now + lifetime
    requires forall m :: k < m <= j && trace[m].event.Opened? && trace[m].event.h == trace[k].event.h ==>
      trace[m].event.w.now >= trace[k].event.w.now
    ensures OpenedSince(trace[j], trace[k].event.h, trace[k].event.w.now)
    decreases j
  {
    var h, t := trace[k].event.h, trace[k].event.w.now;
    if k == j {
      assert k > 0 && Step(trace[k - 1], trace[k], lifetime) && WellNamed(trace[k - 1]);
      JustOpened(trace[k - 1], trace[k], lifetime);
    } else {
      StaysCached(trace, k, j - 1, lifetime);
      assert Step(trace[j - 1], trace[j], lifetime) && WellNamed(trace[j - 1]);
      StillOpened(trace[j - 1], trace[j], h, t, lifetime);
    }
  }

  lemma JustOpened(a: Entry, b: Entry, lifetime: int)
    requires WellNamed(a) && Step(a, b, lifetime) && b.event.Opened?
    ensures OpenedSince(b, b.event.h, b.event.w.now)
  {
    if Unknown(a, b.event.path) {
      assert b.cached[|a.cached|] == b.event.h;
    } else {
      var i :| 0 <= i < |a.infos| && i < |a.cached| && a.cached[i] == b.event.h;
      assert b.cached[i] == b.event.h;
    }
  }

  lemma StillOpened(a: Entry, b: Entry, h: Handle, t: int, lifetime: int)
    requires WellNamed(a) && Step(a, b, lifetime) && OpenedSince(a, h, t)
    requires b.event.Swept? ==> forall i :: 0 <= i < |b.event.times| ==> b.event.times[i] <= t + lifetime
    requires b.event.Opened? && b.event.h == h ==> b.event.w.now >= t
    ensures OpenedSince(b, h, t)
  {
    var i :| 0 <= i < |a.cached| && i < |a.infos| && a.cached[i] == h && a.infos[i].otime >= t;
    if b.event.Swept? {
      StillSwept(a, b, i, lifetime);
    } else {
      assert b.cached[i] == h;
    }
  }

  lemma StillSwept(a: Entry, b: Entry, i: nat, lifetime: int)
    requires WellNamed(a) && Step(a, b, lifetime) && b.event.Swept? && i < |a.cached|
    requires i < |b.event.times| ==> b.event.times[i] <= a.infos[i].otime + lifetime
    ensures OpenedSince(b, a.cached[i], a.infos[i].otime)
  {
    hide Step;
    SweptExactly(a, b, lifetime);
    var j :| 0 <= j < |b.cached| && b.cached[j] == a.cached[i];
    assert b.infos[j] == a.infos[i];
  }

  // refcnt counts the outstanding opens.
  ghost predicate Faithful(e: Entry, held: multiset<Handle>) {
    |e.cached| == |e.infos| && forall i :: 0 <= i < |e.cached| ==> e.infos[i].refcnt == held[e.cached[i]]
  }

  // Where every close matches an open, no handle that is still held has left the list.
  lemma HeldStaysCached(trace: seq<Entry>, lifetime: int)
    requires Sound(trace, lifetime) && Matched(trace)
    ensures Faithful(trace[|trace| - 1], Outstanding(trace))
    ensures forall h :: h in Outstanding(trace) ==> h in trace[|trace| - 1].cached
  {
    hide Step, WellNamed, Matched, Outstanding, Net;
    RefcntIsNet(trace, lifetime);
    forall h
      ensures Net(trace, h) == Outstanding(trace)[h]
    {
      MatchedNet(trace, h);
    }
    forall h | h in Outstanding(trace)
      ensures h in trace[|trace| - 1].cached
    {
      assert Net(trace, h) != 0;
    }
  }

  // A close that matches no open leaves refcnt below the outstanding opens.
  lemma {:induction false} StrayClose(trace: seq<Entry>, lifetime: int)
    requires Sound(trace, lifetime) && Matched(trace[..|trace| - 1]) && !Matched(trace)
    ensures !Faithful(trace[|trace| - 1], Outstanding(trace))
  {
    var n, h := |trace| - 1, trace[|trace| - 1].event.h;
    RefcntIsNet(trace, lifetime);
    MatchedNet(trace[..n], h);
    var i :| 0 <= i < |trace[n].cached| && trace[n].cached[i] == h;
    assert trace[n].infos[i].refcnt == -1;
  }

  // refcnt is right throughout exactly where every close matches an open.
  lemma {:induction false} FaithfulIff(trace: seq<Entry>, lifetime: int)
    requires Sound(trace, lifetime)
    ensures Matched(trace) <==>
      forall k :: 0 <= k < |trace| ==> Faithful(trace[k], Outstanding(trace[..k + 1]))
  {
    hide Step, WellNamed, Outstanding, Net, Faithful, Allowed;
    var n := |trace| - 1;
    assert trace[..n + 1] == trace;
    if n > 0 {
      FaithfulIff(trace[..n], lifetime);
      assert forall k :: 0 <= k < n ==> trace[..n][..k + 1] == trace[..k + 1] && trace[..n][k] == trace[k];
    }
    if Matched(trace) {
      HeldStaysCached(trace, lifetime);
    } else if Matched(trace[..n]) {
      StrayClose(trace, lifetime);
    }
  }

  // What is left of s and of t stands side by side.
  lemma {:induction false} KeptPairs<S, T>(s: seq<S>, t: seq<T>, f: seq<nat>, n: nat)
    requires |s| == |t| == |f|
    ensures |Kept(s, f, n)| == |Kept(t, f, n)|
    ensures forall k :: 0 <= k < |Kept(s, f, n)| ==>
      exists i :: 0 <= i < |s| && s[i] == Kept(s, f, n)[k] && t[i] == Kept(t, f, n)[k]
  {
    if s != [] {
      KeptPairs(s[1..], t[1..], f[1..], n);
    }
  }

  // ------------------------------------------------------------ one call

  ghost function Now(c: Cache, ev: Event): Entry
    reads c`handles, c.handles`payload
  {
    Entry(ev, c.handles, Infos(c.handles))
  }

  ghost predicate Ready(c: Cache, files: BlockHeap<FileMapping>)
    reads c, c.heap, c.heap.repr, c.heap.blocks, c.list, c.list.nodes, c.handles, files, files.repr, files.blocks
  {
    c.Valid() && files.Valid() && c.Aside(files)
  }

  lemma NowNamed(c: Cache, ev: Event)
    requires c.Valid()
    ensures WellNamed(Now(c, ev))
  {
    hide Cache.Linked, Cache.Counted;
    c.Facts();
  }

  lemma UnknownIff(c: Cache, path: Path)
    ensures c.Cached(path) <==> !Unknown(Now(c, Started), path)
  {
    var infos := Infos(c.handles);
    if c.Cached(path) {
      var i :| 0 <= i < |c.handles| && c.handles[i].payload.name == Some(path);
      assert infos[i].name == Some(path);
    }
  }

  lemma OneJoined(c: Cache, a: Entry, ev: Event)
    requires c.Valid() && |c.handles| == |a.cached| + 1 == |a.infos| + 1 && c.handles[..|a.cached|] == a.cached
    requires forall i ::
      0 <= i < |a.cached| && a.cached[i] != c.handles[|a.cached|] ==> a.infos[i] == a.cached[i].payload
    ensures var h := c.handles[|a.cached|]; Joined(a, Now(c, ev), h, h.payload)
  {
    hide Cache.Linked, Cache.Named, Cache.Counted;
    c.Facts();
    assert Infos(c.handles)[..|a.cached|] == a.infos;
  }

  // pkg_open
  method OpenStep(c: Cache, path: Path, w: World) returns (t: Cell?<PkgInfo>, exited: bool, ghost e: Entry)
    requires c.Valid()
    modifies c, c.heap, c.heap.repr, c.list, c.list.nodes
    ensures c.heap.repr >= old(c.heap.repr) && fresh(c.heap.repr - old(c.heap.repr)) && c.stray == old(c.stray)
    ensures !exited ==> forall n :: n in c.list.nodes && n !in old(c.list.nodes) ==> fresh(n)
    ensures !exited ==> c.Valid()
    ensures !exited ==> e == Now(c, if t == null then Failed(path, w) else Opened(path, w, t))
    ensures exited ==> Exits(OpenReq(path, w), old(Now(c, Started)))
    ensures !exited ==> c.held == if t == null then old(c.held) else old(c.held) + multiset{t}
    ensures !exited ==> Step(old(Now(c, Started)), e, c.lifetime)
  {
    hide Cache.Linked, Cache.Named, Cache.Counted, Cache.Cached, Infos, Unknown;
    c.Apartness();
    UnknownIff(c, path);
    ghost var a := Now(c, Started);
    t, exited := c.Open(path, w);
    e := Now(c, if t == null then Failed(path, w) else Opened(path, w, t));
    if !exited {
      if !Unknown(a, path) {
        assert Turned(a, e, t, (p: PkgInfo) => p.(refcnt := p.refcnt + 1, otime := w.now));
      } else if !w.OpenFails() {
        OneJoined(c, a, e.event);
      } else {
        assert e.infos == a.infos;
      }
    }
  }

  // ... beside the heap of file mappings
  method DoOpen(c: Cache, files: BlockHeap<FileMapping>, path: Path, w: World)
    returns (t: Cell?<PkgInfo>, exited: bool, ghost e: Entry)
    requires Ready(c, files)
    modifies c, c.heap, c.heap.repr, c.list, c.list.nodes
    ensures fresh(c.heap.repr - old(c.heap.repr)) && files.repr == old(files.repr) && c.stray == old(c.stray)
    ensures !exited ==> forall n :: n in c.list.nodes && n !in old(c.list.nodes) ==> fresh(n)
    ensures !exited ==> Ready(c, files)
    ensures !exited ==> e == Now(c, if t == null then Failed(path, w) else Opened(path, w, t))
    ensures exited ==> Exits(OpenReq(path, w), old(Now(c, Started)))
    ensures !exited ==> c.held == if t == null then old(c.held) else old(c.held) + multiset{t}
    ensures !exited ==> Step(old(Now(c, Started)), e, c.lifetime)
  {
    hide Cache.Linked, Cache.Named, Cache.Counted, BlockHeap.Valid, Infos, Step, Exits;
    c.Apartness();
    files.LiveInside();
    t, exited, e := OpenStep(c, path, w);
  }

  // pkg_handle_byname and, if it finds something, pkg_close
  method DoClose(c: Cache, files: BlockHeap<FileMapping>, path: Path) returns (ghost e: Entry)
    requires Ready(c, files)
    modifies c, c.heap.repr
    ensures c.heap.repr == old(c.heap.repr) && c.list.nodes == old(c.list.nodes) && files.repr == old(files.repr)
    ensures Ready(c, files) && e == Now(c, e.event) && Answers(CloseReq(path), e.event)
    ensures c.stray == old(c.stray) || (e.event.Closed? && e.event.h !in old(c.held))
    ensures c.held == After(old(c.held), e.event)
    ensures Step(old(Now(c, Started)), e, c.lifetime)
  {
    hide Cache.Linked, Cache.Named, Cache.Counted, BlockHeap.Valid, Infos;
    c.Facts();
    files.LiveInside();
    UnknownIff(c, path);
    ghost var a := Now(c, Started);
    var h := c.HandleByName(path);
    if h == null {
      e := Now(c, NothingToClose(path));
    } else {
      c.Close(h);
      e := Now(c, Closed(path, h));
      assert files.Valid();
      assert Turned(a, e, h, (p: PkgInfo) => p.(refcnt := p.refcnt - 1));
    }
  }

  lemma HeldListed(c: Cache)
    requires c.Valid()
    ensures forall h :: h in c.held || h in c.stray ==> h in c.handles
  {
    hide Cache.Linked, Cache.Named;
  }

  lemma SweptInfos(hs: seq<Handle>, a: Entry, times: seq<int>, lifetime: int)
    requires |a.cached| == |a.infos| == |times|
    requires hs == Survivors(a.cached, a.infos, times, lifetime)
    requires forall i :: 0 <= i < |a.cached| && a.cached[i] in hs ==> a.cached[i].payload == a.infos[i]
    ensures Infos(hs) == Survivors(a.infos, a.infos, times, lifetime)
  {
    KeptPairs(a.cached, a.infos, Marks(a.infos, times, lifetime), 1);
  }

  // pkg_gc
  method DoSweep(c: Cache, files: BlockHeap<FileMapping>, times: seq<int>) returns (ghost e: Entry)
    requires Ready(c, files) && |times| == |c.handles|
    modifies c, c.heap, c.heap.repr, c.list, c.list.nodes, files, files.repr
    ensures c.heap.repr == old(c.heap.repr) && files.repr == old(files.repr)
    ensures forall n :: n in c.list.nodes ==> n in old(c.list.nodes)
    ensures Ready(c, files) && e == Now(c, Swept(times))
    ensures old(c.stray) == multiset{} ==> c.stray == multiset{} && c.held == old(c.held)
    ensures Step(old(Now(c, Started)), e, c.lifetime)
  {
    hide Cache.Linked, Cache.Named, Cache.Counted, BlockHeap.Valid, Infos, Survivors, Keeps;
    SetOf(c.list.nodes);
    ghost var a, books := Now(c, Started), c.Books();
    HeldListed(c);
    c.Gc(times, files);
    HeldListed(c);
    SetOf(c.list.nodes);
    e := Now(c, Swept(times));
    if books.closes == multiset{} {
      MatchedKeepsAll(books, c.Books());
    }
    SweptInfos(c.handles, a, times, c.lifetime);
  }

  lemma LengthIs(c: Cache)
    requires c.Valid()
    ensures c.list.length == |c.handles|
  {
    hide Cache.Named, Cache.Counted, BlockHeap.Valid;
  }

  // Without stray closes so far, and with none in this call, the ledger follows the record.
  ghost predicate Tallied(held: multiset<Handle>, stray: multiset<Handle>, c: Cache, ev: Event)
    reads c`held, c`stray
  {
    stray == multiset{} && (ev.Closed? ==> ev.h in held) ==> c.stray == multiset{} && c.held == After(held, ev)
  }

  // ------------------------------------------------------------ a run

  method Act(c: Cache, files: BlockHeap<FileMapping>, req: Request) returns (exited: bool, ghost e: Entry)
    requires Ready(c, files)
    modifies c, c.heap, c.heap.repr, c.list, c.list.nodes, files, files.repr
    ensures fresh(c.heap.repr - old(c.heap.repr)) && files.repr == old(files.repr)
    ensures !exited ==> forall n :: n in c.list.nodes && n !in old(c.list.nodes) ==> fresh(n)
    ensures !exited ==> Ready(c, files) && e == Now(c, e.event) && WellNamed(e)
    ensures !exited ==> Answers(req, e.event) && Step(old(Now(c, Started)), e, c.lifetime)
    ensures !exited ==> Tallied(old(c.held), old(c.stray), c, e.event)
    ensures exited ==> Exits(req, old(Now(c, Started)))
  {
    hide Cache.Linked, Cache.Named, Cache.Counted, BlockHeap.Valid, Infos, Step, WellNamed, Exits;
    exited := false;
    match req {
      case OpenReq(path, w) =>
        var t;
        t, exited, e := DoOpen(c, files, path, w);
        if exited {
          return;
        }
      case CloseReq(path) =>
        e := DoClose(c, files, path);
      case SweepReq(f) =>
        LengthIs(c);
        var times := seq(c.list.length, i requires 0 <= i => f(i));
        e := DoSweep(c, files, times);
    }
    NowNamed(c, e.event);
  }

  // The event that came before does not matter.
  lemma SameStart(a: Entry, ev: Event, b: Entry, req: Request, lifetime: int)
    ensures Step(a, b, lifetime) ==> Step(a.(event := ev), b, lifetime)
    ensures Exits(req, a) ==> Exits(req, a.(event := ev))
  {
  }

  // Requests are served one by one, and the cache stays sound.  The record says what each
  // call did.
  method Run(c: Cache, files: BlockHeap<FileMapping>, reqs: seq<Request>)
    returns (exited: bool, ghost trace: seq<Entry>)
    requires Ready(c, files) && c.handles == []
    modifies c, c.heap, c.heap.repr, c.list, c.list.nodes, files, files.repr
    ensures Sound(trace, c.lifetime) && |trace| <= |reqs| + 1
    ensures forall i :: 0 <= i < |trace| - 1 ==> Answers(reqs[i], trace[i + 1].event)
    ensures exited <==> |trace| <= |reqs|
    ensures exited ==> Exits(reqs[|trace| - 1], trace[|trace| - 1])
    ensures !exited ==> Ready(c, files) && trace[|trace| - 1] == Now(c, trace[|trace| - 1].event)
    ensures !exited && Matched(trace) ==> c.stray == multiset{} && c.held == Outstanding(trace)
  {
    hide Cache.Linked, Cache.Named, Cache.Counted, BlockHeap.Valid, Step, Answers, Exits, Outstanding, Matched;
    HeldListed(c);
    c.Facts();
    ghost var t0 := [Now(c, Started)];
    trace := t0;
    StartMatched(t0);
    exited := false;
    for i := 0 to |reqs|
      invariant Ready(c, files) && fresh(c.heap.repr - old(c.heap.repr)) && files.repr == old(files.repr)
      invariant fresh(c.list.nodes)
      invariant |trace| == i + 1 && Sound(trace, c.lifetime) && trace[i] == Now(c, trace[i].event)
      invariant forall k :: 0 <= k < i ==> Answers(reqs[k], trace[k + 1].event)
      invariant Matched(trace) ==> c.stray == multiset{} && c.held == Outstanding(trace)
    {
      ghost var e;
      ghost var a := Now(c, Started);
      ghost var ns := c.list.nodes;
      exited, e := Act(c, files, reqs[i]);
      SameStart(a, trace[i].event, e, reqs[i], c.lifetime);
      if exited {
        return;
      }
      forall k | 0 <= k < |c.list.nodes|
        ensures fresh(c.list.nodes[k])
      {
        assert c.list.nodes[k] in ns ==> fresh(c.list.nodes[k]);
      }
      SoundMore(trace, e, c.lifetime);
      More(trace, e);
      trace := trace + [e];
    }
  }

  // pkg_init, and the requests after it.  timer is what is configured for the lifetime.
  method FromInit(size: nat, perBlock: nat, timer: Option<T.CString>, fileSize: nat, filesPerBlock: nat,
                  none: FileMapping, reqs: seq<Request>)
    returns (c: Cache, files: BlockHeap<FileMapping>, exited: bool, ghost trace: seq<Entry>)
    requires size > 0 && perBlock > 0 && fileSize > 0 && filesPerBlock > 0 && T.Time(timer, 60).Some?
    ensures Sound(trace, c.lifetime) && |trace| <= |reqs| + 1
    ensures c.lifetime == T.Time(timer, 60).value && (timer == None ==> c.lifetime == 60)
    ensures forall i :: 0 <= i < |trace| - 1 ==> Answers(reqs[i], trace[i + 1].event)
    ensures exited <==> |trace| <= |reqs|
    ensures exited ==> Exits(reqs[|trace| - 1], trace[|trace| - 1])
    ensures !exited ==> Ready(c, files) && trace[|trace| - 1] == Now(c, trace[|trace| - 1].event)
    ensures !exited && Matched(trace) ==> c.stray == multiset{} && c.held == Outstanding(trace)
  {
    hide Cache.Linked, Cache.Named, Cache.Counted, BlockHeap.Valid, Sound, Answers, Exits, Outstanding, Matched, Infos;
    hide T.Time;
    files := new BlockHeap<FileMapping>(fileSize, filesPerBlock, none);
    var life := T.TimestrToTime(timer, 60);
    c := new Cache(size, perBlock, life.value);
    c.Apartness();
    exited, trace := Run(c, files, reqs);
  }
}
