/** The steps of the operations of the network filesystem keep what its counters mean. */
module VolumeSteps {
  import opened Sequences
  import opened FsState
  import opened Widths

  // ----- what a change of one inode leaves as it is

  /** Only the counts of the inodes may differ. */
  predicate SameBody(n: Inode, m: Inode) {
    m == n.(refcount := m.refcount, openCount := m.openCount)
  }

  ghost predicate SameBodies(ns: seq<Inode>, ms: seq<Inode>) {
    |ns| == |ms| && forall i :: 0 <= i < |ns| ==> SameBody(ns[i], ms[i])
  }

  lemma {:induction false} SumBlocksSame(ns: seq<Inode>, ms: seq<Inode>)
    requires SameBodies(ns, ms)
    ensures SumBlocks(ns) == SumBlocks(ms)
  {
    if ns != [] { SumBlocksSame(ns[..|ns| - 1], ms[..|ms| - 1]); }
  }

  lemma {:induction false} SumSizesSame(ns: seq<Inode>, ms: seq<Inode>, list: seq<nat>)
    requires forall k :: 0 <= k < |list| ==> list[k] < |ns| && list[k] < |ms| && ns[list[k]].size == ms[list[k]].size
    ensures SumSizes(ns, list) == SumSizes(ms, list)
  {
    if list != [] { SumSizesSame(ns, ms, list[..|list| - 1]); }
  }

  lemma BodiesCache(ns: seq<Inode>, ms: seq<Inode>, list: seq<nat>, cached: int)
    requires SameBodies(ns, ms) && CacheOk(ns, list, cached)
    ensures CacheOk(ms, list, cached)
  {
    SumSizesSame(ns, ms, list);
  }

  lemma BodiesDirs(ns: seq<Inode>, ms: seq<Inode>, es: seq<Entry>)
    requires SameBodies(ns, ms) && Dirs(ns, es)
    ensures Dirs(ms, es)
  {
  }

  lemma BodiesContents(ns: seq<Inode>, ms: seq<Inode>, hs: seq<Handle>)
    requires SameBodies(ns, ms) && Contents(ns, hs) && Buffers(ns)
    ensures Contents(ms, hs) && Buffers(ms)
  {
  }

  /** What does not depend on the counts. */
  ghost predicate BodyOk(t: Tables, ex: int) {
    && |t.ns| > 0 && t.ns[ROOT].kind == Dir && Dirs(t.ns, t.es) && Hierarchy(t.es, ex)
    && t.blocks == SumBlocks(t.ns) && CacheOk(t.ns, t.list, t.cached) && Contents(t.ns, t.hs) && Buffers(t.ns)
  }

  ghost predicate CountsOk(t: Tables, owed: multiset<nat>) {
    Refs(t.ns, t.es, owed) && Opens(t.ns, t.hs) && Lives(t.ns)
  }

  lemma OkIs(t: Tables, owed: multiset<nat>, ex: int)
    ensures t.Ok(owed, ex) <==> BodyOk(t, ex) && CountsOk(t, owed)
  {
    hide Refs, Opens, Lives, Dirs, Hierarchy, CacheOk, Contents, Buffers, SumBlocks;
  }

  lemma CountedBody(t: Tables, ex: int, i: nat, refcount: int, openCount: int)
    requires BodyOk(t, ex) && i < |t.ns|
    ensures BodyOk(t.Counted(i, refcount, openCount), ex)
  {
    var ms := t.Counted(i, refcount, openCount).ns;
    assert SameBodies(t.ns, ms);
    SumBlocksSame(t.ns, ms);
    BodiesCache(t.ns, ms, t.list, t.cached);
    BodiesDirs(t.ns, ms, t.es);
    BodiesContents(t.ns, ms, t.hs);
    hide SameBodies, Dirs, Hierarchy, CacheOk, Contents, Buffers, SumBlocks;
  }

  // ----- inode_new

  lemma NewCounts(t: Tables, owed: multiset<nat>, kind: Kind)
    requires CountsOk(t, owed) && |t.ns| > 0
    ensures CountsOk(t.New(kind), owed + multiset{|t.ns|})
  {
    var n := |t.ns|;
    assert forall k :: 0 <= k < |t.es| ==> Inos(t.es)[k] != n;
    CountIn(Inos(t.es), n);
    HeldBelow(t.hs, n);
  }

  lemma {:induction false} HeldBelow(hs: seq<Handle>, n: nat)
    requires forall h :: 0 <= h < |hs| ==> hs[h].ino < n
    ensures Holds(hs, n) == 0
  {
    if hs != [] {
      HeldBelow(hs[..|hs| - 1], n);
      assert hs == hs[..|hs| - 1] + [hs[|hs| - 1]];
      HoldsAdded(hs[..|hs| - 1], hs[|hs| - 1], n);
    }
  }

  lemma NewDirs(t: Tables, kind: Kind)
    requires Dirs(t.ns, t.es)
    ensures Dirs(t.New(kind).ns, t.es)
  {
    NoEntries(t.es, |t.ns|);
  }

  lemma NewCache(t: Tables, kind: Kind)
    requires CacheOk(t.ns, t.list, t.cached)
    ensures CacheOk(t.New(kind).ns, t.list, t.cached)
  {
    SumSizesSame(t.ns, t.New(kind).ns, t.list);
  }

  lemma NewContents(t: Tables, kind: Kind)
    requires Contents(t.ns, t.hs) && Buffers(t.ns)
    ensures Contents(t.New(kind).ns, t.hs) && Buffers(t.New(kind).ns)
  {
  }

  lemma NewKeeps(t: Tables, owed: multiset<nat>, ex: int, kind: Kind)
    requires t.Ok(owed, ex)
    ensures t.New(kind).Ok(owed + multiset{|t.ns|}, ex)
  {
    hide Refs, Opens, Lives, Dirs, Hierarchy, CacheOk, Contents, Buffers, SumBlocks, CountsOk;
    OkIs(t, owed, ex);
    NewCounts(t, owed, kind);
    NewDirs(t, kind);
    NewCache(t, kind);
    NewContents(t, kind);
    SumAdded(t.ns, Inode(true, kind, 1, 0, 0, 0, Local));
    OkIs(t.New(kind), owed + multiset{|t.ns|}, ex);
  }

  // ----- inode_incref

  lemma IncRefKeeps(t: Tables, owed: multiset<nat>, ex: int, i: nat)
    requires t.Ok(owed, ex) && t.Is(i)
    ensures t.IncRef(i).Ok(owed + multiset{i}, ex)
  {
    hide Refs, Opens, Lives, Dirs, Hierarchy, CacheOk, Contents, Buffers, SumBlocks, BodyOk, CountsOk;
    OkIs(t, owed, ex);
    IncRefCounts(t, owed, i);
    CountedBody(t, ex, i, t.ns[i].refcount + 1, t.ns[i].openCount);
    OkIs(t.IncRef(i), owed + multiset{i}, ex);
  }

  lemma IncRefCounts(t: Tables, owed: multiset<nat>, i: nat)
    requires CountsOk(t, owed) && t.Is(i)
    ensures CountsOk(t.IncRef(i), owed + multiset{i})
    ensures t.IncRef(i) == t.Counted(i, t.ns[i].refcount + 1, t.ns[i].openCount)
  {
  }

  // ----- inode_dir_add

  lemma AddCounts(t: Tables, owed: multiset<nat>, d: nat, name: string, i: nat)
    requires CountsOk(t, owed) && d < |t.ns| && i in owed
    ensures CountsOk(t.Add(d, name, i), owed - multiset{i})
  {
    var u := t.Add(d, name, i);
    forall j | 0 <= j < |u.ns|
      ensures u.ns[j].refcount == Named(u.es, j) + (owed - multiset{i})[j] + (if j == ROOT then 1 else 0)
    {
      NamedAdded(t.es, Entry(d, name, i), j);
    }
  }

  lemma AddDirs(t: Tables, d: nat, name: string, i: nat)
    requires Dirs(t.ns, t.es) && t.IsDir(d)
    ensures Dirs(t.Add(d, name, i).ns, t.Add(d, name, i).es)
  {
    hide DirSize, EntrySize;
    var u := t.Add(d, name, i);
    forall j | 0 <= j < |u.ns| && u.ns[j].live && u.ns[j].kind == Dir ensures u.ns[j].size == DirSize(u.es, j) {
      DirSizeAdded(t.es, Entry(d, name, i), j);
    }
  }

  lemma AddLinked(es: seq<Entry>, e: Entry, ex: int)
    requires Hierarchy(es, ex) && (Linked(es, e.dir) || (Anchors(e) && e.ino == e.dir) || e.dir == ex)
    requires !HasName(es, e.dir, e.name)
    ensures Hierarchy(es + [e], ex)
  {
    var fs := es + [e];
    forall k | 0 <= k < |fs| && fs[k].dir != ex ensures Linked(fs, fs[k].dir) {
      LinkedAdded(es, e, fs[k].dir);
    }
    hide Linked;
    assert Unique(fs);
  }

  lemma LinkedAdded(es: seq<Entry>, e: Entry, d: nat)
    ensures Linked(es, d) ==> Linked(es + [e], d)
    ensures Anchors(e) ==> Linked(es + [e], e.ino)
  {
    assert (es + [e])[|es|] == e;
    if Linked(es, d) && d != ROOT {
      var k :| 0 <= k < |es| && es[k].ino == d && Anchors(es[k]);
      assert (es + [e])[k] == es[k];
    }
  }

  /** The size of a directory changes. */
  lemma ResizedDirectory(t: Tables, d: nat, size: nat)
    requires t.IsDir(d) && CacheOk(t.ns, t.list, t.cached) && Contents(t.ns, t.hs) && Buffers(t.ns)
    ensures var ms := t.ns[d := t.ns[d].(size := size)];
            && CacheOk(ms, t.list, t.cached) && Contents(ms, t.hs) && Buffers(ms)
            && SumBlocks(ms) == SumBlocks(t.ns) + ToBlocks(size) - ToBlocks(t.ns[d].size)
  {
    var ms := t.ns[d := t.ns[d].(size := size)];
    SumUpdate(t.ns, d, ms[d]);
    SumSizesSame(t.ns, ms, t.list);
  }

  lemma AddKeeps(t: Tables, owed: multiset<nat>, ex: int, d: nat, name: string, i: nat)
    requires t.Ok(owed, ex) && t.IsDir(d) && i in owed
    requires (Linked(t.es, d) || (name == "." && i == d) || d == ex) && !HasName(t.es, d, name)
    ensures t.Add(d, name, i).Ok(owed - multiset{i}, ex)
  {
    hide Refs, Opens, Lives, Dirs, Hierarchy, Linked, HasName, CacheOk, Contents, Buffers, SumBlocks, CountsOk;
    OkIs(t, owed, ex);
    AddCounts(t, owed, d, name, i);
    AddDirs(t, d, name, i);
    AddLinked(t.es, Entry(d, name, i), ex);
    ResizedDirectory(t, d, t.ns[d].size + EntrySize(name));
    OkIs(t.Add(d, name, i), owed - multiset{i}, ex);
  }

  // ----- inode_dirent_delete_no_decref

  lemma EntryFits(t: Tables, k: nat)
    requires Dirs(t.ns, t.es) && k < |t.es|
    ensures t.IsDir(t.es[k].dir) && EntrySize(t.es[k].name) <= t.ns[t.es[k].dir].size
  {
    DirSizeWithout(t.es, k, t.es[k].dir);
  }

  lemma DelCounts(t: Tables, owed: multiset<nat>, k: nat)
    requires CountsOk(t, owed) && k < |t.es| && t.es[k].dir < |t.ns| &&
             EntrySize(t.es[k].name) <= t.ns[t.es[k].dir].size
    ensures CountsOk(t.Del(k), owed + multiset{t.es[k].ino})
  {
    var u := t.Del(k);
    forall j | 0 <= j < |u.ns|
      ensures u.ns[j].refcount == Named(u.es, j) + (owed + multiset{t.es[k].ino})[j] + (if j == ROOT then 1 else 0)
    {
      NamedWithout(t.es, k, j);
    }
  }

  lemma DelDirs(t: Tables, k: nat)
    requires Dirs(t.ns, t.es) && k < |t.es| && t.IsDir(t.es[k].dir) && EntrySize(t.es[k].name) <= t.ns[t.es[k].dir].size
    ensures Dirs(t.Del(k).ns, t.Del(k).es)
  {
    hide DirSize, EntrySize;
    var u := t.Del(k);
    forall j | 0 <= j < |u.ns| && u.ns[j].live && u.ns[j].kind == Dir ensures u.ns[j].size == DirSize(u.es, j) {
      DirSizeWithout(t.es, k, j);
    }
  }

  lemma DelLinked(es: seq<Entry>, k: nat, ex: int)
    requires Hierarchy(es, ex) && k < |es| && CanGo(es, k, ex)
    ensures Hierarchy(Without(es, k), ex)
  {
    var fs := Without(es, k);
    forall j | 0 <= j < |fs| && fs[j].dir != ex ensures Linked(fs, fs[j].dir) {
      assert fs[j] == es[if j < k then j else j + 1];
      LinkedRemains(es, k, fs[j].dir, ex);
    }
    hide Linked, CanGo, IsEntry;
    DelUnique(es, k);
  }

  lemma DelUnique(es: seq<Entry>, k: nat)
    requires Unique(es) && k < |es|
    ensures Unique(Without(es, k))
  {
    var fs := Without(es, k);
    hide IsEntry;
    forall i, j | 0 <= i < j < |fs| ensures !IsEntry(fs[i], fs[j].dir, fs[j].name) {
      assert fs[i] == es[if i < k then i else i + 1] && fs[j] == es[if j < k then j else j + 1];
    }
  }

  /** A directory with entries stays linked when an entry that can go is deleted. */
  lemma LinkedRemains(es: seq<Entry>, k: nat, d: nat, ex: int)
    requires k < |es| && CanGo(es, k, ex) && Linked(es, d) && d != ex && (exists j :: 0 <= j < |es| && es[j].dir == d)
    ensures Linked(Without(es, k), d)
  {
    var fs := Without(es, k);
    if d != ROOT {
      var m :| 0 <= m < |es| && es[m].ino == d && Anchors(es[m]);
      if m != k {
        assert fs[if m < k then m else m - 1] == es[m];
      } else {
        var n :| 0 <= n < |es| && n != k && es[n].ino == d && Anchors(es[n]);
        assert fs[if n < k then n else n - 1] == es[n];
      }
    }
  }

  lemma DelKeeps(t: Tables, owed: multiset<nat>, ex: int, k: nat)
    requires t.Ok(owed, ex) && k < |t.es| && CanGo(t.es, k, ex)
    ensures t.IsDir(t.es[k].dir) && EntrySize(t.es[k].name) <= t.ns[t.es[k].dir].size
    ensures t.Del(k).Ok(owed + multiset{t.es[k].ino}, ex)
  {
    hide Refs, Opens, Lives, Dirs, Hierarchy, CanGo, CacheOk, Contents, Buffers, SumBlocks, CountsOk;
    OkIs(t, owed, ex);
    EntryFits(t, k);
    DelCounts(t, owed, k);
    DelDirs(t, k);
    DelLinked(t.es, k, ex);
    ResizedDirectory(t, t.es[k].dir, t.ns[t.es[k].dir].size - EntrySize(t.es[k].name));
    OkIs(t.Del(k), owed + multiset{t.es[k].ino}, ex);
  }

  // ----- inode_decref, inode_dec_open and inode_free

  /** Nothing refers to the inode any more; it is still in its place. */
  ghost predicate FreeOk(t: Tables, owed: multiset<nat>, ex: int, i: nat) {
    && i < |t.ns| && i != ROOT && BodyOk(t, ex) && Refs(t.ns, t.es, owed) && Opens(t.ns, t.hs)
    && t.ns[i].live && t.ns[i].refcount + t.ns[i].openCount == 0
    && (forall j :: 0 <= j < |t.ns| && j != i ==> (t.ns[j].live <==> t.ns[j].refcount + t.ns[j].openCount > 0))
    && (t.ns[i].kind == Dir ==> forall k :: 0 <= k < |t.es| ==> t.es[k].dir != i)
  }

  lemma FreedDirs(t: Tables, i: nat)
    requires i < |t.ns| && Dirs(t.ns, t.es) && (t.ns[i].kind == Dir ==> forall k :: 0 <= k < |t.es| ==>
                                                t.es[k].dir != i)
    requires CacheOk(t.ns, t.list, t.cached)
    ensures Cached(t.ns[i]) ==> i in t.list
    ensures Dirs(t.Freed(i).ns, t.es)
  {
  }

  lemma {:induction false} SumSizesMinus(ns: seq<Inode>, list: seq<nat>, i: nat)
    requires (forall k :: 0 <= k < |list| ==> list[k] < |ns|) && i in list
    ensures forall k :: 0 <= k < |Minus(list, i)| ==> Minus(list, i)[k] < |ns|
    ensures SumSizes(ns, Minus(list, i)) == SumSizes(ns, list) - ns[i].size
  {
    var front, last, r := list[..|list| - 1], list[|list| - 1], Minus(list, i);
    if last == i {
      assert r == front;
    } else {
      assert list == front + [last];
      SumSizesMinus(ns, front, i);
      assert r == Minus(front, i) + [last] && r[..|r| - 1] == Minus(front, i);
      hide Minus;
    }
  }

  /** A file leaves the cache. */
  lemma Uncached(ns: seq<Inode>, ms: seq<Inode>, i: nat, list: seq<nat>, cached: int)
    requires i < |ns| == |ms| && CacheOk(ns, list, cached) && Cached(ns[i]) && !Cached(ms[i])
    requires forall j :: 0 <= j < |ns| && j != i ==> ms[j] == ns[j]
    ensures i in list && CacheOk(ms, Minus(list, i), cached - ns[i].size)
  {
    MinusHas(list, i);
    SumSizesMinus(ns, list, i);
    SumSizesSame(ns, ms, Minus(list, i));
    forall k | 0 <= k < |Minus(list, i)| ensures Minus(list, i)[k] < |ms| && Cached(ms[Minus(list, i)[k]]) {
      assert Minus(list, i)[k] in Minus(list, i);
    }
  }

  /** A file that is not in the cache changes, and does not enter it. */
  lemma StillUncached(ns: seq<Inode>, ms: seq<Inode>, i: nat, list: seq<nat>, cached: int)
    requires i < |ns| == |ms| && CacheOk(ns, list, cached) && !Cached(ns[i]) && !Cached(ms[i])
    requires forall j :: 0 <= j < |ns| && j != i ==> ms[j] == ns[j]
    ensures CacheOk(ms, list, cached)
  {
    SumSizesSame(ns, ms, list);
  }

  lemma FreedCache(t: Tables, i: nat)
    requires i < |t.ns| && CacheOk(t.ns, t.list, t.cached) && (Cached(t.ns[i]) ==> i in t.list)
    ensures CacheOk(t.Freed(i).ns, t.Freed(i).list, t.Freed(i).cached)
  {
    var ms := t.Freed(i).ns;
    if Cached(t.ns[i]) {
      Uncached(t.ns, ms, i, t.list, t.cached);
    } else {
      StillUncached(t.ns, ms, i, t.list, t.cached);
    }
  }

  lemma FreedContents(t: Tables, i: nat)
    requires i < |t.ns| && Contents(t.ns, t.hs) && Buffers(t.ns)
    ensures Contents(t.ns[i := t.ns[i].(live := false)], t.hs) && Buffers(t.ns[i := t.ns[i].(live := false)])
  {
  }

  lemma FreedBlocks(t: Tables, i: nat)
    requires i < |t.ns| && t.ns[i].live && Dirs(t.ns, t.es) && (Cached(t.ns[i]) ==> i in t.list)
    requires t.ns[i].kind == Dir ==> forall k :: 0 <= k < |t.es| ==> t.es[k].dir != i
    requires t.blocks == SumBlocks(t.ns)
    ensures t.Freed(i).blocks == SumBlocks(t.Freed(i).ns)
  {
    SumUpdate(t.ns, i, t.ns[i].(live := false));
    if t.ns[i].kind == Dir { NoEntries(t.es, i); }
  }

  lemma FreedCounts(t: Tables, owed: multiset<nat>, ex: int, i: nat)
    requires FreeOk(t, owed, ex, i) && (Cached(t.ns[i]) ==> i in t.list)
    ensures CountsOk(t.Freed(i), owed)
  {
    hide BodyOk;
  }

  lemma FreedKeeps(t: Tables, owed: multiset<nat>, ex: int, i: nat)
    requires FreeOk(t, owed, ex, i)
    ensures Cached(t.ns[i]) ==> i in t.list
    ensures t.Freed(i).Ok(owed, ex)
  {
    hide Refs, Opens, Lives, Dirs, Hierarchy, CacheOk, Contents, Buffers, SumBlocks, CountsOk;
    FreedDirs(t, i);
    FreedCache(t, i);
    FreedContents(t, i);
    FreedBlocks(t, i);
    FreedCounts(t, owed, ex, i);
    OkIs(t.Freed(i), owed, ex);
  }

  /** A directory to which nothing refers has no entries. */
  lemma UnlinkedIsEmpty(es: seq<Entry>, i: nat, ex: int)
    requires Hierarchy(es, ex) && i != ex && i != ROOT && Named(es, i) == 0
    ensures forall k :: 0 <= k < |es| ==> es[k].dir != i
  {
    if k :| 0 <= k < |es| && es[k].dir == i {
      assert Linked(es, i);
      var m :| 0 <= m < |es| && es[m].ino == i && Anchors(es[m]);
      NamedBy(es, m);
    }
  }

  /** A reference is given up. */
  lemma DecRefStep(t: Tables, owed: multiset<nat>, ex: int, i: nat)
    requires t.Ok(owed, ex) && i in owed && (i != ex || i >= |t.ns| || t.ns[i].refcount > 1)
    ensures t.Is(i) && t.ns[i].refcount >= 1
    ensures var u := t.Counted(i, t.ns[i].refcount - 1, t.ns[i].openCount);
            if t.ns[i].refcount - 1 <= 0 && t.ns[i].openCount <= 0 then FreeOk(u, owed - multiset{i}, ex, i)
            else u.Ok(owed - multiset{i}, ex)
  {
    hide Tables.Ok, FreeOk, BodyOk, CountsOk, Tables.Counted;
    OkIs(t, owed, ex);
    DecRefCounts(t, owed, i);
    var u := t.Counted(i, t.ns[i].refcount - 1, t.ns[i].openCount);
    CountedBody(t, ex, i, t.ns[i].refcount - 1, t.ns[i].openCount);
    if t.ns[i].refcount - 1 <= 0 && t.ns[i].openCount <= 0 {
      DecRefFree(t, u, owed - multiset{i}, ex, i);
    } else {
      CountsOf(u, owed - multiset{i});
      OkIs(u, owed - multiset{i}, ex);
    }
  }

  lemma CountsOf(t: Tables, owed: multiset<nat>)
    requires Refs(t.ns, t.es, owed) && Opens(t.ns, t.hs) && Lives(t.ns)
    ensures CountsOk(t, owed)
  {
  }

  /** The last reference was given up. */
  lemma DecRefFree(t: Tables, u: Tables, owed: multiset<nat>, ex: int, i: nat)
    requires BodyOk(t, ex) && i < |t.ns| && BodyOk(u, ex) && Refs(u.ns, u.es, owed) && Opens(u.ns, u.hs)
    requires u == t.Counted(i, t.ns[i].refcount - 1, t.ns[i].openCount) && t.ns[i].live && i != ex
    requires t.ns[i].refcount - 1 + t.ns[i].openCount == 0 && i != ROOT && Named(t.es, i) == 0
    requires forall j :: 0 <= j < |u.ns| && j != i ==> (u.ns[j].live <==> u.ns[j].refcount + u.ns[j].openCount > 0)
    ensures FreeOk(u, owed, ex, i)
  {
    BodyParts(t, ex);
    UnlinkedIsEmpty(t.es, i, ex);
    hide BodyOk, Refs, Opens, Hierarchy, Contents, Named;
  }

  lemma DecRefCounts(t: Tables, owed: multiset<nat>, i: nat)
    requires CountsOk(t, owed) && i in owed
    ensures t.Is(i) && t.ns[i].refcount >= 1 && t.ns[i].openCount >= 0
    ensures var u := t.Counted(i, t.ns[i].refcount - 1, t.ns[i].openCount);
            && Refs(u.ns, u.es, owed - multiset{i}) && Opens(u.ns, u.hs)
            && (forall j :: 0 <= j < |u.ns| && j != i ==> (u.ns[j].live <==> u.ns[j].refcount + u.ns[j].openCount > 0))
            && (t.ns[i].refcount - 1 + t.ns[i].openCount > 0 ==> Lives(u.ns))
    ensures t.ns[i].refcount <= 1 ==> i != ROOT && Named(t.es, i) == 0
  {
    hide Named, Holds;
  }

  // ----- handles

  lemma HoldKeeps(t: Tables, owed: multiset<nat>, ex: int, i: nat, isOpen: bool, writable: bool)
    requires t.Ok(owed, ex) && t.Is(i) && (isOpen && t.ns[i].kind == Reg ==>
                                           t.ns[i].state == Local || t.ns[i].state == Loaded)
    ensures t.Hold(i, isOpen, writable).Ok(owed, ex)
  {
    hide Dirs, Hierarchy, CacheOk, Contents, Buffers, SumBlocks, BodyOk, CountsOk;
    OkIs(t, owed, ex);
    var u := t.Hold(i, isOpen, writable);
    HoldCounts(t, owed, i, isOpen, writable);
    CountedBody(t, ex, i, t.ns[i].refcount, t.ns[i].openCount + 1);
    HandlesBody(t.Counted(i, t.ns[i].refcount, t.ns[i].openCount + 1), ex, u.hs) by {
      BodyParts(t, ex);
      HoldContents(t, i, isOpen, writable);
    }
    OkIs(u, owed, ex);
  }

  lemma HoldContents(t: Tables, i: nat, isOpen: bool, writable: bool)
    requires Contents(t.ns, t.hs) && t.Is(i)
    requires isOpen && t.ns[i].kind == Reg ==> t.ns[i].state == Local || t.ns[i].state == Loaded
    ensures Contents(t.Hold(i, isOpen, writable).ns, t.Hold(i, isOpen, writable).hs)
  {
  }

  /** The handles change. */
  lemma HandlesBody(t: Tables, ex: int, hs: seq<Handle>)
    requires BodyOk(t, ex) && Contents(t.ns, hs)
    ensures BodyOk(t.(hs := hs), ex)
  {
    hide Dirs, Hierarchy, CacheOk, Contents, Buffers, SumBlocks;
  }

  lemma HoldCounts(t: Tables, owed: multiset<nat>, i: nat, isOpen: bool, writable: bool)
    requires CountsOk(t, owed) && t.Is(i)
    ensures CountsOk(t.Hold(i, isOpen, writable), owed)
  {
    var u := t.Hold(i, isOpen, writable);
    HoldOpens(t, i, isOpen, writable);
    SameRefs(t.ns, u.ns, t.es, owed);
    HoldLives(t, owed, i, isOpen, writable);
    hide Refs, Opens, Lives;
  }

  lemma HoldOpens(t: Tables, i: nat, isOpen: bool, writable: bool)
    requires Opens(t.ns, t.hs) && i < |t.ns|
    ensures Opens(t.Hold(i, isOpen, writable).ns, t.Hold(i, isOpen, writable).hs)
  {
    hide Holds;
    var u := t.Hold(i, isOpen, writable);
    forall j | 0 <= j < |u.ns| ensures u.ns[j].openCount == Holds(u.hs, j) {
      HoldsAdded(t.hs, Handle(true, i, isOpen, writable), j);
    }
  }

  lemma HoldLives(t: Tables, owed: multiset<nat>, i: nat, isOpen: bool, writable: bool)
    requires Lives(t.ns) && t.Is(i)
    ensures Lives(t.Hold(i, isOpen, writable).ns)
  {
  }

  lemma SameRefs(ns: seq<Inode>, ms: seq<Inode>, es: seq<Entry>, owed: multiset<nat>)
    requires Refs(ns, es, owed) && |ns| == |ms| && forall i :: 0 <= i < |ns| ==> ms[i].refcount == ns[i].refcount
    ensures Refs(ms, es, owed)
  {
  }

  /** A handle is freed. */
  lemma UnholdStep(t: Tables, owed: multiset<nat>, ex: int, h: nat)
    requires t.Ok(owed, ex) && h < |t.hs| && t.hs[h].live && t.hs[h].ino != ex && t.NoneWaits(h)
    ensures t.Is(t.hs[h].ino) && t.ns[t.hs[h].ino].openCount >= 1
    ensures var u := t.Unhold(h); var i := t.hs[h].ino;
            if t.ns[i].openCount - 1 <= 0 && t.ns[i].refcount <= 0 then FreeOk(u, owed, ex, i) else u.Ok(owed, ex)
  {
    hide Dirs, Linked, CacheOk, Contents, Buffers, SumBlocks, BodyOk;
    OkIs(t, owed, ex);
    HandleIsHeld(t.hs, h);
    var u, i := t.Unhold(h), t.hs[h].ino;
    UnholdOpens(t, h);
    SameRefs(t.ns, u.ns, t.es, owed);
    CountedBody(t, ex, i, t.ns[i].refcount, t.ns[i].openCount - 1);
    UnholdContents(t, ex, h);
    HandlesBody(t.Counted(i, t.ns[i].refcount, t.ns[i].openCount - 1), ex, u.hs);
    hide Opens;
    if t.ns[i].openCount - 1 <= 0 && t.ns[i].refcount <= 0 {
      UnlinkedIsEmpty(t.es, i, ex) by { BodyParts(t, ex); }
    } else {
      OkIs(u, owed, ex);
    }
  }

  lemma BodyParts(t: Tables, ex: int)
    requires BodyOk(t, ex)
    ensures Hierarchy(t.es, ex) && Contents(t.ns, t.hs)
  {
    hide Dirs, Hierarchy, CacheOk, Contents, Buffers, SumBlocks;
  }

  lemma {:induction false} HandleIsHeld(hs: seq<Handle>, h: nat)
    requires h < |hs| && hs[h].live
    ensures Holds(hs, hs[h].ino) > 0
  {
    HoldsUpdate(hs, h, hs[h].(live := false), hs[h].ino);
  }

  lemma UnholdOpens(t: Tables, h: nat)
    requires Opens(t.ns, t.hs) && h < |t.hs| && t.hs[h].live
    ensures Opens(t.Unhold(h).ns, t.Unhold(h).hs)
  {
    hide Holds;
    var u := t.Unhold(h);
    forall j | 0 <= j < |u.ns| ensures u.ns[j].openCount == Holds(u.hs, j) {
      HoldsUpdate(t.hs, h, t.hs[h].(live := false, isOpened := false), j);
    }
  }

  lemma UnholdContents(t: Tables, ex: int, h: nat)
    requires BodyOk(t, ex) && h < |t.hs| && t.hs[h].ino < |t.ns| && t.NoneWaits(h)
    ensures Contents(t.Unhold(h).ns, t.Unhold(h).hs)
  {
    hide Dirs, Hierarchy, CacheOk, Buffers, SumBlocks;
  }

  /** A handle is marked open or closed. */
  lemma MarkKeeps(t: Tables, owed: multiset<nat>, ex: int, h: nat, isOpen: bool, writable: bool)
    requires t.Ok(owed, ex) && h < |t.hs| && t.hs[h].live
    requires t.hs[h].ino < |t.ns|
    requires isOpen && t.ns[t.hs[h].ino].kind == Reg ==>
               t.ns[t.hs[h].ino].state == Local || t.ns[t.hs[h].ino].state == Loaded
    ensures t.(hs := t.hs[h := t.hs[h].(isOpened := isOpen, writable := writable)]).Ok(owed, ex)
  {
    hide Refs, Opens, Lives, Dirs, Hierarchy, CacheOk, Contents, Buffers, SumBlocks, BodyOk;
    var hs := t.hs[h := t.hs[h].(isOpened := isOpen, writable := writable)];
    OkIs(t, owed, ex);
    BodyParts(t, ex);
    MarkOpens(t, h, isOpen, writable);
    MarkContents(t, h, isOpen, writable);
    HandlesBody(t, ex, hs);
    OkIs(t.(hs := hs), owed, ex);
  }

  lemma MarkOpens(t: Tables, h: nat, isOpen: bool, writable: bool)
    requires Opens(t.ns, t.hs) && h < |t.hs|
    ensures Opens(t.ns, t.hs[h := t.hs[h].(isOpened := isOpen, writable := writable)])
  {
    var hs := t.hs[h := t.hs[h].(isOpened := isOpen, writable := writable)];
    forall i | 0 <= i < |t.ns| ensures t.ns[i].openCount == Holds(hs, i) { HoldsUpdate(t.hs, h, hs[h], i); }
  }

  lemma MarkContents(t: Tables, h: nat, isOpen: bool, writable: bool)
    requires Contents(t.ns, t.hs) && h < |t.hs| && t.hs[h].ino < |t.ns|
    requires isOpen && t.ns[t.hs[h].ino].kind == Reg ==>
               t.ns[t.hs[h].ino].state == Local || t.ns[t.hs[h].ino].state == Loaded
    ensures Contents(t.ns, t.hs[h := t.hs[h].(isOpened := isOpen, writable := writable)])
  {
  }

  /** The inode of a live handle is live. */
  lemma HandleOk(t: Tables, owed: multiset<nat>, ex: int, h: nat)
    requires t.Ok(owed, ex) && h < |t.hs| && t.hs[h].live
    ensures t.Is(t.hs[h].ino) && t.ns[t.hs[h].ino].openCount > 0
  {
    hide Refs, Dirs, Hierarchy, CacheOk, Contents, Buffers, SumBlocks;
    HandleIsHeld(t.hs, h);
    RefNotNegative(t, owed, t.hs[h].ino);
  }

  lemma RefNotNegative(t: Tables, owed: multiset<nat>, i: nat)
    requires Refs(t.ns, t.es, owed) && i < |t.ns|
    ensures t.ns[i].refcount >= 0
  {
  }

  /** The inode that an entry names is live, and so is its directory. */
  lemma EntryOk(t: Tables, owed: multiset<nat>, ex: int, k: nat)
    requires t.Ok(owed, ex) && k < |t.es|
    ensures t.Is(t.es[k].ino) && t.ns[t.es[k].ino].refcount > 0 && t.IsDir(t.es[k].dir)
  {
    hide Opens, Hierarchy, CacheOk, Contents, Buffers, SumBlocks;
    NamedBy(t.es, k);
    OpenNotNegative(t, t.es[k].ino) by { hide Refs, Lives, Dirs; }
  }

  lemma OpenNotNegative(t: Tables, i: nat)
    requires Opens(t.ns, t.hs) && i < |t.ns|
    ensures t.ns[i].openCount >= 0
  {
  }

  // ----- files

  lemma FileCache(t: Tables, i: nat, size: nat, room: nat, state: State)
    requires i < |t.ns| && CacheOk(t.ns, t.list, t.cached)
    requires Cached(t.ns[i]) && state == Loaded ==> size == t.ns[i].size
    ensures var u := t.File(i, size, room, state); CacheOk(u.ns, u.list, u.cached)
  {
    var n, u := t.ns[i], t.File(i, size, room, state);
    if Cached(n) {
      if Cached(u.ns[i]) {
        SumSizesSame(t.ns, u.ns, t.list);
      } else {
        Uncached(t.ns, u.ns, i, t.list, t.cached);
      }
    } else if Cached(u.ns[i]) {
      EnterCache(t.ns, u.ns, i, t.list, t.cached);
    } else {
      StillUncached(t.ns, u.ns, i, t.list, t.cached);
    }
  }

  lemma EnterCache(ns: seq<Inode>, ms: seq<Inode>, i: nat, list: seq<nat>, cached: int)
    requires i < |ns| == |ms| && CacheOk(ns, list, cached) && !Cached(ns[i]) && Cached(ms[i])
    requires forall j :: 0 <= j < |ns| && j != i ==> ms[j] == ns[j]
    ensures CacheOk(ms, [i] + list, cached + ms[i].size)
  {
    SumSizesSame(ns, ms, list);
    SumSizesFront(ms, i, list);
  }

  lemma {:induction false} SumSizesFront(ns: seq<Inode>, i: nat, list: seq<nat>)
    requires i < |ns| && forall k :: 0 <= k < |list| ==> list[k] < |ns|
    ensures SumSizes(ns, [i] + list) == ns[i].size + SumSizes(ns, list)
  {
    if list != [] {
      assert ([i] + list)[..|list|] == [i] + list[..|list| - 1];
      SumSizesFront(ns, i, list[..|list| - 1]);
    }
  }

  lemma FileContents(t: Tables, i: nat, size: nat, room: nat, state: State)
    requires t.Is(i) && t.ns[i].kind == Reg && Contents(t.ns, t.hs) && Buffers(t.ns)
    requires state == Local || state == Loaded || !t.OpenedOn(i)
    requires Waits(state, t.hs, i) && Fits(size, room, state)
    ensures var u := t.File(i, size, room, state); Contents(u.ns, t.hs) && Buffers(u.ns)
  {
  }

  lemma FileDirs(t: Tables, i: nat, size: nat, room: nat, state: State)
    requires t.Is(i) && t.ns[i].kind == Reg && Dirs(t.ns, t.es)
    ensures var u := t.File(i, size, room, state);
            Dirs(u.ns, t.es) && SumBlocks(u.ns) == SumBlocks(t.ns) + ToBlocks(size) - ToBlocks(t.ns[i].size)
  {
    SumUpdate(t.ns, i, t.File(i, size, room, state).ns[i]);
  }

  lemma FileCounts(t: Tables, owed: multiset<nat>, i: nat, size: nat, room: nat, state: State)
    requires CountsOk(t, owed) && i < |t.ns|
    ensures CountsOk(t.File(i, size, room, state), owed)
  {
  }

  /** A file changes its size, its buffer or its state. */
  lemma FileKeeps(t: Tables, owed: multiset<nat>, ex: int, i: nat, size: nat, room: nat, state: State)
    requires t.Ok(owed, ex) && t.Is(i) && t.ns[i].kind == Reg
    requires state == Local || state == Loaded || !t.OpenedOn(i)
    requires Waits(state, t.hs, i) && Fits(size, room, state)
    requires Cached(t.ns[i]) && state == Loaded ==> size == t.ns[i].size
    ensures t.File(i, size, room, state).Ok(owed, ex)
  {
    hide Refs, Opens, Lives, Dirs, Hierarchy, CacheOk, Contents, Buffers, SumBlocks, CountsOk;
    OkIs(t, owed, ex);
    FileCache(t, i, size, room, state);
    FileContents(t, i, size, room, state);
    FileDirs(t, i, size, room, state);
    FileCounts(t, owed, i, size, room, state);
    OkIs(t.File(i, size, room, state), owed, ex);
  }

  /** A file whose contents are not there is not open. */
  lemma NotOpened(t: Tables, owed: multiset<nat>, ex: int, i: nat)
    requires t.Ok(owed, ex) && t.Is(i) && t.ns[i].kind == Reg
    requires (t.ns[i].state != Local && t.ns[i].state != Loaded) || t.ns[i].openCount == 0
    ensures !t.OpenedOn(i)
  {
    hide Refs, Lives, Dirs, Hierarchy, CacheOk, Buffers, SumBlocks;
    if t.OpenedOn(i) {
      var h :| 0 <= h < |t.hs| && t.hs[h].live && t.hs[h].isOpened && t.hs[h].ino == i;
      HandleIsHeld(t.hs, h);
    }
  }

  lemma BuffersOk(t: Tables, owed: multiset<nat>, ex: int, i: nat)
    requires t.Ok(owed, ex) && t.Is(i) && t.ns[i].kind == Reg
    ensures Fits(t.ns[i].size, t.ns[i].room, t.ns[i].state)
    ensures Waits(t.ns[i].state, t.hs, i)
  {
    hide Refs, Lives, Dirs, Hierarchy, CacheOk, SumBlocks, Opens;
  }

  lemma OnlyFilesLoad(t: Tables, owed: multiset<nat>, ex: int, i: nat)
    requires t.Ok(owed, ex) && i < |t.ns| && t.ns[i].state != Local
    ensures t.ns[i].kind == Reg
  {
    hide Refs, Lives, Dirs, Hierarchy, CacheOk, SumBlocks, Opens, Buffers;
  }

  /** No load waits for a handle on a directory. */
  lemma DirectoryHandle(t: Tables, owed: multiset<nat>, ex: int, h: nat)
    requires t.Ok(owed, ex) && h < |t.hs| && t.hs[h].ino < |t.ns| && t.ns[t.hs[h].ino].kind != Reg
    ensures t.NoneWaits(h)
  {
    hide Refs, Lives, Dirs, Hierarchy, CacheOk, SumBlocks, Opens, Buffers;
  }

  /** A handle moves from one inode, that stays alive, to another. */
  function Moved(t: Tables, h: nat, j: nat, writable: bool): Tables
    requires h < |t.hs| && t.hs[h].ino < |t.ns| && j < |t.ns|
  {
    var i := t.hs[h].ino;
    var ns := t.ns[i := t.ns[i].(openCount := t.ns[i].openCount - 1)];
    t.(hs := t.hs[h := Handle(true, j, true, writable)], ns := ns[j := ns[j].(openCount := ns[j].openCount + 1)])
  }

  lemma MovedOpens(t: Tables, h: nat, j: nat, writable: bool)
    requires Opens(t.ns, t.hs) && h < |t.hs| && t.hs[h].live && j < |t.ns|
    ensures Opens(Moved(t, h, j, writable).ns, Moved(t, h, j, writable).hs)
  {
    hide Holds;
    var u := Moved(t, h, j, writable);
    forall x | 0 <= x < |u.ns| ensures u.ns[x].openCount == Holds(u.hs, x) {
      HoldsUpdate(t.hs, h, Handle(true, j, true, writable), x);
    }
  }

  lemma MovedContents(t: Tables, h: nat, j: nat, writable: bool)
    requires Contents(t.ns, t.hs) && h < |t.hs| && t.hs[h].ino < |t.ns| && j < |t.ns| && t.ns[j].state == Local &&
             t.NoneWaits(h)
    ensures Contents(Moved(t, h, j, writable).ns, Moved(t, h, j, writable).hs)
  {
  }

  lemma MovedLives(t: Tables, h: nat, j: nat, writable: bool)
    requires Lives(t.ns) && Opens(t.ns, t.hs) && h < |t.hs| && t.hs[h].live && t.Is(j) && t.hs[h].ino != j
    requires t.ns[t.hs[h].ino].refcount >= 0
    requires t.ns[t.hs[h].ino].refcount > 0 || t.ns[t.hs[h].ino].openCount > 1
    ensures Lives(Moved(t, h, j, writable).ns)
  {
    HandleIsHeld(t.hs, h);
  }

  lemma MovedKeeps(t: Tables, owed: multiset<nat>, ex: int, h: nat, j: nat, writable: bool)
    requires t.Ok(owed, ex) && h < |t.hs| && t.hs[h].live && t.Is(j) && t.ns[j].state == Local && t.NoneWaits(h)
    requires t.hs[h].ino < |t.ns| && t.hs[h].ino != j
    requires t.ns[t.hs[h].ino].refcount > 0 || t.ns[t.hs[h].ino].openCount > 1
    ensures Moved(t, h, j, writable).Ok(owed, ex)
  {
    hide Refs, Opens, Lives, Dirs, Hierarchy, CacheOk, Contents, Buffers, SumBlocks, BodyOk;
    OkIs(t, owed, ex);
    BodyParts(t, ex);
    var u, i := Moved(t, h, j, writable), t.hs[h].ino;
    MovedOpens(t, h, j, writable);
    MovedContents(t, h, j, writable);
    RefNotNegative(t, owed, i);
    MovedLives(t, h, j, writable);
    SameRefs(t.ns, u.ns, t.es, owed);
    CountedBody(t, ex, i, t.ns[i].refcount, t.ns[i].openCount - 1);
    var v := t.Counted(i, t.ns[i].refcount, t.ns[i].openCount - 1);
    CountedBody(v, ex, j, v.ns[j].refcount, v.ns[j].openCount + 1);
    HandlesBody(v.Counted(j, v.ns[j].refcount, v.ns[j].openCount + 1), ex, u.hs);
    OkIs(u, owed, ex);
  }

  /** While a directory is emptied, its dot does not count. */
  lemma Emptying(t: Tables, owed: multiset<nat>, n: nat)
    requires t.Ok(owed, -1)
    ensures t.Ok(owed, n)
  {
    hide Refs, Opens, Lives, Dirs, CacheOk, Contents, Buffers, SumBlocks;
  }

  lemma Emptied(t: Tables, owed: multiset<nat>, n: nat)
    requires t.Ok(owed, n) && forall k :: 0 <= k < |t.es| ==> t.es[k].dir != n
    ensures t.Ok(owed, -1)
  {
    hide Refs, Opens, Lives, Dirs, CacheOk, Contents, Buffers, SumBlocks;
  }

  /** The operation on a directory that has entries is over. */
  lemma BusyDone(t: Tables, owed: multiset<nat>, d: nat)
    requires t.Ok(owed, d) && exists k :: 0 <= k < |t.es| && t.es[k].dir == d
    ensures t.Ok(owed, -1) <==> Linked(t.es, d)
  {
    hide Refs, Opens, Lives, Dirs, CacheOk, Contents, Buffers, SumBlocks, Unique, Linked;
  }

  lemma NamedTwice(es: seq<Entry>, j: nat, k: nat)
    requires j < |es| && k < |es| && j != k && es[j].ino == es[k].ino
    ensures Named(es, es[k].ino) >= 2
  {
    NamedWithout(es, j, es[k].ino);
    var k1 := if k < j then k else k - 1;
    assert Without(es, j)[k1] == es[k];
    NamedBy(Without(es, j), k1);
  }

  lemma RefcountIs(t: Tables, owed: multiset<nat>, ex: int, i: nat)
    requires t.Ok(owed, ex) && i < |t.ns|
    ensures t.ns[i].refcount == Named(t.es, i) + owed[i] + (if i == ROOT then 1 else 0)
  {
    hide Opens, Lives, Dirs, Hierarchy, CacheOk, Contents, Buffers, SumBlocks;
  }

  lemma {:induction false} MinusAt(list: seq<nat>, k: nat)
    requires NoDup(list) && k < |list|
    ensures Minus(list, list[k]) == Without(list, k)
  {
    var n := |list| - 1;
    if k < n {
      FrontNoDup(list, k);
      MinusAt(list[..n], k);
      hide NoDup;
      WithoutFront(list, k);
    } else {
      hide NoDup;
      assert Without(list, k) == list[..n];
    }
  }

  lemma FrontNoDup(list: seq<nat>, k: nat)
    requires NoDup(list) && k < |list| - 1
    ensures NoDup(list[..|list| - 1]) && list[..|list| - 1][k] == list[k] != list[|list| - 1]
  {
  }

  lemma WithoutFront(list: seq<nat>, k: nat)
    requires k < |list| - 1
    ensures Without(list, k) == Without(list[..|list| - 1], k) + [list[|list| - 1]]
  {
  }

  lemma ListOk(t: Tables, owed: multiset<nat>, ex: int)
    requires t.Ok(owed, ex)
    ensures NoDup(t.list) && forall k :: 0 <= k < |t.list| ==> t.list[k] < |t.ns| && Cached(t.ns[t.list[k]])
    ensures forall i :: 0 <= i < |t.ns| && Cached(t.ns[i]) ==> i in t.list
  {
    hide Refs, Opens, Lives, Dirs, Hierarchy, Contents, Buffers, SumBlocks, SumSizes;
  }

  /** A file of the cache moves to the front. */
  lemma FrontKeeps(t: Tables, owed: multiset<nat>, ex: int, i: nat)
    requires t.Ok(owed, ex) && i in t.list
    ensures t.(list := [i] + Minus(t.list, i)).Ok(owed, ex)
  {
    FrontCache(t, i);
    hide Refs, Opens, Lives, Dirs, Hierarchy, CacheOk, Contents, Buffers, SumBlocks;
  }

  lemma FrontCache(t: Tables, i: nat)
    requires CacheOk(t.ns, t.list, t.cached) && i in t.list
    ensures CacheOk(t.ns, [i] + Minus(t.list, i), t.cached)
  {
    hide Minus, SumSizes;
    var rest := Minus(t.list, i);
    MinusHas(t.list, i);
    SumSizesMinus(t.ns, t.list, i);
    SumSizesFront(t.ns, i, rest);
    ConsNoDup(i, rest);
    hide NoDup;
    assert forall k :: 0 <= k < |rest| ==> rest[k] in rest;
    assert forall x :: x in [i] + rest <==> x == i || x in rest;
  }

  lemma ConsNoDup(i: nat, rest: seq<nat>)
    requires NoDup(rest) && i !in rest
    ensures NoDup([i] + rest)
  {
  }
}
