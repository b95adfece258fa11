/** The inodes, directory entries and file handles of the network filesystem, and what its counters count (fs_net.c). */
module FsState {
  import opened Options
  import opened Sequences
  import opened Widths

  const BLOCK: nat := 4096
  /** The size of an FSDirEntry, and the end of the name. */
  const ENTRY: nat := 33
  const ROOT: nat := 0

  datatype Kind = Reg | Dir | Lnk | Dev

  /** The state of the contents of a file; a load can have a handle waiting for it. */
  datatype State = Local | Unloaded | Loading(waiting: Option<nat>) | Loaded

  /** FSINode; `room` is the size of its buffer.  The number of an inode is its place in the list, and an inode that is
      freed stays in its place and is not live. */
  datatype Inode = Inode(live: bool, kind: Kind, refcount: int, openCount: int, size: nat, room: nat, state: State) {
    /** The buffer for a new size: it grows by a quarter at least, and shrinks by a fifth at most. A size that is larger
        by 2^63 or more leaves it as it is. */
    function Room(newSize: nat): nat {
      if size < newSize < size + SIGNED64 then
        if newSize <= room then room else if newSize <= room * 5 / 4 then room * 5 / 4 else newSize
      else if newSize <= room * 4 / 5 then room * 4 / 5 else room
    }
  }

  /** FSDirEntry, with the directory it is in. */
  datatype Entry = Entry(dir: nat, name: string, ino: nat)

  /** FSFile */
  datatype Handle = Handle(live: bool, ino: nat, isOpened: bool, writable: bool)

  // ----- counting

  function Count(s: seq<nat>, x: nat): nat {
    if s == [] then 0 else Count(s[1..], x) + (if s[0] == x then 1 else 0)
  }

  lemma {:induction false} CountConcat(s: seq<nat>, t: seq<nat>, x: nat)
    ensures Count(s + t, x) == Count(s, x) + Count(t, x)
  {
    if s == [] {
      assert s + t == t;
    } else {
      assert (s + t)[1..] == s[1..] + t;
      CountConcat(s[1..], t, x);
    }
  }

  lemma {:induction false} CountIn(s: seq<nat>, x: nat)
    ensures x in s <==> Count(s, x) > 0
  {
    if s != [] { CountIn(s[1..], x); }
  }

  lemma CountWithout(s: seq<nat>, k: nat, x: nat)
    requires k < |s|
    ensures Count(Without(s, k), x) == Count(s, x) - (if s[k] == x then 1 else 0)
  {
    assert s == s[..k] + ([s[k]] + s[k + 1..]);
    CountConcat(s[..k], [s[k]] + s[k + 1..], x);
    CountConcat([s[k]], s[k + 1..], x);
    CountConcat(s[..k], s[k + 1..], x);
  }

  /** The inodes that the entries name. */
  function Inos(es: seq<Entry>): (r: seq<nat>)
    ensures |r| == |es|
  {
    seq(|es|, k requires 0 <= k < |es| => es[k].ino)
  }

  function Named(es: seq<Entry>, i: nat): nat { Count(Inos(es), i) }

  lemma NamedAdded(es: seq<Entry>, e: Entry, i: nat)
    ensures Named(es + [e], i) == Named(es, i) + (if e.ino == i then 1 else 0)
  {
    assert Inos(es + [e]) == Inos(es) + [e.ino];
    CountConcat(Inos(es), [e.ino], i);
  }

  lemma NamedWithout(es: seq<Entry>, k: nat, i: nat)
    requires k < |es|
    ensures Named(Without(es, k), i) == Named(es, i) - (if es[k].ino == i then 1 else 0)
  {
    assert Inos(Without(es, k)) == Without(Inos(es), k);
    CountWithout(Inos(es), k, i);
  }

  lemma NamedBy(es: seq<Entry>, k: nat)
    requires k < |es|
    ensures Named(es, es[k].ino) > 0
  {
    assert Inos(es)[k] in Inos(es);
    CountIn(Inos(es), es[k].ino);
  }

  /** The inodes that live handles are on; a handle that is freed is on none. */
  function Held(hs: seq<Handle>): (r: seq<nat>) {
    if hs == [] then [] else Held(hs[..|hs| - 1]) + (if hs[|hs| - 1].live then [hs[|hs| - 1].ino] else [])
  }

  function Holds(hs: seq<Handle>, i: nat): nat { Count(Held(hs), i) }

  lemma HoldsAdded(hs: seq<Handle>, h: Handle, i: nat)
    ensures Holds(hs + [h], i) == Holds(hs, i) + (if h.live && h.ino == i then 1 else 0)
  {
    assert (hs + [h])[..|hs|] == hs;
    CountConcat(Held(hs), if h.live then [h.ino] else [], i);
  }

  lemma {:induction false} HoldsUpdate(hs: seq<Handle>, k: nat, h: Handle, i: nat)
    requires k < |hs|
    ensures Holds(hs[k := h], i) ==
            Holds(hs, i) - (if hs[k].live && hs[k].ino == i then 1 else 0) + (if h.live && h.ino == i then 1 else 0)
    decreases |hs|
  {
    var front, last := hs[..|hs| - 1], hs[|hs| - 1];
    assert hs == front + [last];
    HoldsAdded(front, last, i);
    if k == |hs| - 1 {
      assert hs[k := h] == front + [h];
      HoldsAdded(front, h, i);
    } else {
      HoldsUpdate(front, k, h, i);
      assert hs[k := h] == front[k := h] + [last];
      HoldsAdded(front[k := h], last, i);
    }
  }

  // ----- sizes

  /** No buffer is larger. */
  const MEMORY: nat := 0x1000_0000_0000_0000

  /** to_blocks, of an unsigned 64-bit size */
  function ToBlocks(size: nat): nat { (size + BLOCK - 1) % U64 / BLOCK }

  function BlocksOf(n: Inode): nat { if n.live then ToBlocks(n.size) else 0 }

  function SumBlocks(ns: seq<Inode>): nat {
    if ns == [] then 0 else SumBlocks(ns[..|ns| - 1]) + BlocksOf(ns[|ns| - 1])
  }

  /** The least number of blocks that hold the bytes; the largest sizes wrap around to none. */
  lemma BlocksHold(size: nat)
    requires size < U64
    ensures size < U64 - 4095 ==> ToBlocks(size) * 4096 - 4096 < size <= ToBlocks(size) * 4096
    ensures size >= U64 - 4095 ==> ToBlocks(size) == 0
  {
  }

  function LiveBytes(ns: seq<Inode>): nat {
    if ns == [] then 0 else LiveBytes(ns[..|ns| - 1]) + (if ns[|ns| - 1].live then ns[|ns| - 1].size else 0)
  }

  /** The blocks counted have room for all live files and directories, and no more than a block each is left over. */
  lemma {:induction false} SumBlocksHold(ns: seq<Inode>)
    requires forall i :: 0 <= i < |ns| && ns[i].live ==> ns[i].size < U64 - 4095
    ensures LiveBytes(ns) <= SumBlocks(ns) * 4096 <= LiveBytes(ns) + |ns| * 4095
  {
    if ns != [] {
      var last := ns[|ns| - 1];
      SumBlocksHold(ns[..|ns| - 1]);
      if last.live {
        BlocksHold(last.size);
      }
    }
  }

  lemma {:induction false} SumUpdate(ns: seq<Inode>, i: nat, n: Inode)
    requires i < |ns|
    ensures SumBlocks(ns[i := n]) == SumBlocks(ns) - BlocksOf(ns[i]) + BlocksOf(n)
    decreases |ns|
  {
    var front := ns[..|ns| - 1];
    if i == |ns| - 1 {
      assert ns[i := n][..i] == front;
    } else {
      SumUpdate(front, i, n);
      assert ns[i := n][..|ns| - 1] == front[i := n];
    }
  }

  lemma SumAdded(ns: seq<Inode>, n: Inode)
    ensures SumBlocks(ns + [n]) == SumBlocks(ns) + BlocksOf(n)
  {
    assert (ns + [n])[..|ns|] == ns;
  }

  function EntrySize(name: string): nat { ENTRY + |name| }

  /** The size of a directory: its entries. */
  function DirSize(es: seq<Entry>, d: nat): nat {
    if es == [] then 0
    else DirSize(es[..|es| - 1], d) + (if es[|es| - 1].dir == d then EntrySize(es[|es| - 1].name) else 0)
  }

  lemma DirSizeAdded(es: seq<Entry>, e: Entry, d: nat)
    ensures DirSize(es + [e], d) == DirSize(es, d) + (if e.dir == d then EntrySize(e.name) else 0)
  {
    assert (es + [e])[..|es|] == es;
  }

  function NamesIn(es: seq<Entry>, d: nat): seq<string> {
    if es == [] then []
    else NamesIn(es[..|es| - 1], d) + (if es[|es| - 1].dir == d then [es[|es| - 1].name] else [])
  }

  function Letters(names: seq<string>): nat {
    if names == [] then 0 else Letters(names[..|names| - 1]) + |names[|names| - 1]|
  }

  /** A directory counts 33 bytes for each of its entries, and the names. */
  lemma {:induction false} DirSizeIs(es: seq<Entry>, d: nat)
    ensures DirSize(es, d) == 33 * |NamesIn(es, d)| + Letters(NamesIn(es, d))
  {
    if es != [] {
      DirSizeIs(es[..|es| - 1], d);
      var front, name := NamesIn(es[..|es| - 1], d), es[|es| - 1].name;
      assert (front + [name])[..|front|] == front;
      assert (front + [name])[|front|] == name && front + [] == front;
    }
  }

  lemma {:induction false} DirSizeWithout(es: seq<Entry>, k: nat, d: nat)
    requires k < |es|
    ensures DirSize(es, d) == DirSize(Without(es, k), d) + (if es[k].dir == d then EntrySize(es[k].name) else 0)
    decreases |es|
  {
    var front, last := es[..|es| - 1], es[|es| - 1];
    if k == |es| - 1 {
      assert Without(es, k) == front;
    } else {
      DirSizeWithout(front, k, d);
      assert Without(es, k) == Without(front, k) + [last];
      DirSizeAdded(Without(front, k), last, d);
    }
  }

  lemma {:induction false} NoEntries(es: seq<Entry>, d: nat)
    requires forall k :: 0 <= k < |es| ==> es[k].dir != d
    ensures DirSize(es, d) == 0
  {
    if es != [] { NoEntries(es[..|es| - 1], d); }
  }

  function SumSizes(ns: seq<Inode>, list: seq<nat>): nat
    requires forall k :: 0 <= k < |list| ==> list[k] < |ns|
  {
    if list == [] then 0 else SumSizes(ns, list[..|list| - 1]) + ns[list[|list| - 1]].size
  }

  /** A list without one of its elements. */
  function Minus(list: seq<nat>, i: nat): (r: seq<nat>)
    ensures i in list ==> |r| == |list| - 1
  {
    if list == [] then []
    else if list[|list| - 1] == i then list[..|list| - 1]
    else Minus(list[..|list| - 1], i) + [list[|list| - 1]]
  }

  lemma {:induction false} MinusHas(list: seq<nat>, i: nat)
    requires NoDup(list)
    ensures NoDup(Minus(list, i)) && forall x :: x in Minus(list, i) <==> x in list && x != i
  {
    if list != [] {
      var front, last := list[..|list| - 1], list[|list| - 1];
      assert list == front + [last];
      if last != i {
        MinusHas(front, i);
        assert forall k :: 0 <= k < |front| ==> front[k] == list[k];
        assert last !in front && last !in Minus(front, i);
        assert forall x :: x in Minus(list, i) <==> x in Minus(front, i) || x == last;
      } else {
        assert forall x :: x in front ==> x != i;
      }
    }
  }

  predicate NoDup(list: seq<nat>) {
    forall j, k :: 0 <= j < k < |list| ==> list[j] != list[k]
  }

  // ----- what the counters mean

  /** The reference count of an inode is the number of entries that name it, one more for the root, and one more for
      each reference in `owed`, that a running operation holds. */
  ghost predicate Refs(ns: seq<Inode>, es: seq<Entry>, owed: multiset<nat>) {
    && (forall k :: 0 <= k < |es| ==> es[k].ino < |ns| && es[k].dir < |ns|)
    && (forall i :: i in owed ==> i < |ns|)
    && (forall i :: 0 <= i < |ns| ==> ns[i].refcount == Named(es, i) + owed[i] + (if i == ROOT then 1 else 0))
  }

  /** The open count is the number of live handles. */
  ghost predicate Opens(ns: seq<Inode>, hs: seq<Handle>) {
    && (forall h :: 0 <= h < |hs| ==> hs[h].ino < |ns|)
    && (forall i :: 0 <= i < |ns| ==> ns[i].openCount == Holds(hs, i))
  }

  /** An inode is freed exactly when there is neither a reference to it nor a handle on it. */
  ghost predicate Lives(ns: seq<Inode>) {
    forall i :: 0 <= i < |ns| ==> (ns[i].live <==> ns[i].refcount + ns[i].openCount > 0)
  }

  /** Entries are in live directories, the size of which is that of their entries. */
  ghost predicate Dirs(ns: seq<Inode>, es: seq<Entry>) {
    && (forall k :: 0 <= k < |es| ==> es[k].dir < |ns| && ns[es[k].dir].live && ns[es[k].dir].kind == Dir)
    && (forall i :: 0 <= i < |ns| && ns[i].live && ns[i].kind == Dir ==> ns[i].size == DirSize(es, i))
    && (forall i :: 0 <= i < |ns| && (ns[i].kind == Lnk || ns[i].kind == Dev) ==> ns[i].size == 0)
  }

  predicate IsDotName(name: string) { name == "." || name == ".." }

  /** The entry keeps its inode until it is deleted by its name: it is not a dot of a directory elsewhere. */
  predicate Anchors(e: Entry) { !IsDotName(e.name) || (e.name == "." && e.ino == e.dir) }

  /** The directory is not unlinked. */
  ghost predicate Linked(es: seq<Entry>, d: nat) {
    d == ROOT || exists k :: 0 <= k < |es| && es[k].ino == d && Anchors(es[k])
  }

  /** A directory that has entries is not unlinked.  An operation can be busy with directory `ex`. */
  ghost predicate AllLinked(es: seq<Entry>, ex: int) {
    forall k :: 0 <= k < |es| && es[k].dir != ex ==> Linked(es, es[k].dir)
  }

  predicate IsEntry(e: Entry, d: nat, name: string) {
    e.dir == d && e.name == name
  }

  ghost predicate HasName(es: seq<Entry>, d: nat, name: string) {
    exists k :: 0 <= k < |es| && IsEntry(es[k], d, name)
  }

  /** No name is twice in a directory. */
  ghost predicate Unique(es: seq<Entry>) {
    forall j, k :: 0 <= j < k < |es| ==> !IsEntry(es[j], es[k].dir, es[k].name)
  }

  ghost predicate Hierarchy(es: seq<Entry>, ex: int) {
    Unique(es) && AllLinked(es, ex)
  }

  /** Without entry `k` every directory that has entries is still not unlinked. */
  ghost predicate CanGo(es: seq<Entry>, k: nat, ex: int)
    requires k < |es|
  {
    || es[k].ino == ex || !Anchors(es[k])
    || (exists j :: 0 <= j < |es| && j != k && es[j].ino == es[k].ino && Anchors(es[j]))
    || (forall j :: 0 <= j < |es| ==> es[j].dir != es[k].ino)
  }

  predicate Cached(n: Inode) { n.live && n.kind == Reg && n.state == Loaded }

  /** The cache list has exactly the loaded files, each once, and the cache size is the sum of their sizes. */
  ghost predicate CacheOk(ns: seq<Inode>, list: seq<nat>, cached: int) {
    && (forall k :: 0 <= k < |list| ==> list[k] < |ns| && Cached(ns[list[k]]))
    && NoDup(list)
    && (forall i :: 0 <= i < |ns| && Cached(ns[i]) ==> i in list)
    && cached == SumSizes(ns, list)
  }

  /** A handle that is open on a file sees contents that are there; a load that a handle waits for is one of its own
      file. */
  ghost predicate Contents(ns: seq<Inode>, hs: seq<Handle>) {
    && (forall h :: 0 <= h < |hs| && hs[h].live && hs[h].isOpened ==>
          hs[h].ino < |ns| && (ns[hs[h].ino].kind == Reg ==>
                               ns[hs[h].ino].state == Local || ns[hs[h].ino].state == Loaded))
    && (forall i :: 0 <= i < |ns| && ns[i].live ==> Waits(ns[i].state, hs, i))
    && (forall i :: 0 <= i < |ns| && ns[i].kind != Reg ==> ns[i].state == Local)
  }

  predicate Waits(s: State, hs: seq<Handle>, i: nat) {
    s.Loading? && s.waiting.Some? ==> s.waiting.value < |hs| && hs[s.waiting.value].live && hs[s.waiting.value].ino == i
  }

  /** Contents that are there fit their buffer; there is no buffer for contents that are not. */
  predicate Fits(size: nat, room: nat, state: State) {
    if state == Unloaded then room == 0 && size < U64 else size <= room <= MEMORY
  }

  ghost predicate Buffers(ns: seq<Inode>) {
    forall i :: 0 <= i < |ns| && ns[i].live && ns[i].kind == Reg ==> Fits(ns[i].size, ns[i].room, ns[i].state)
  }

  datatype Tables = Tables(ns: seq<Inode>, es: seq<Entry>, hs: seq<Handle>, blocks: int, list: seq<nat>, cached: int) {
    ghost predicate Ok(owed: multiset<nat>, ex: int) {
      && |ns| > 0 && ns[ROOT].kind == Dir
      && Refs(ns, es, owed) && Opens(ns, hs) && Lives(ns) && Dirs(ns, es) && Hierarchy(es, ex)
      && blocks == SumBlocks(ns) && CacheOk(ns, list, cached) && Contents(ns, hs) && Buffers(ns)
    }

    predicate Is(i: nat) { i < |ns| && ns[i].live }

    predicate IsDir(i: nat) { Is(i) && ns[i].kind == Dir }

    // ----- the steps of the operations

    /** inode_new */
    function New(kind: Kind): Tables {
      this.(ns := ns + [Inode(true, kind, 1, 0, 0, 0, Local)])
    }

    /** inode_incref */
    function IncRef(i: nat): Tables
      requires i < |ns|
    {
      this.(ns := ns[i := ns[i].(refcount := ns[i].refcount + 1)])
    }

    /** inode_dir_add */
    function Add(d: nat, name: string, i: nat): Tables
      requires d < |ns|
    {
      var size := ns[d].size + EntrySize(name);
      this.(ns := ns[d := ns[d].(size := size)], es := es + [Entry(d, name, i)],
            blocks := blocks + ToBlocks(size) - ToBlocks(ns[d].size))
    }

    /** A reference or a handle is given up, and what no one refers to is freed: inode_decref, inode_dec_open,
        inode_free. */
    function Counted(i: nat, refcount: int, openCount: int): Tables
      requires i < |ns|
    {
      this.(ns := ns[i := ns[i].(refcount := refcount, openCount := openCount)])
    }

    function Freed(i: nat): Tables
      requires i < |ns| && (Cached(ns[i]) ==> i in list)
    {
      var n := ns[i];
      this.(ns := ns[i := n.(live := false)],
            blocks := if n.kind == Reg then blocks - ToBlocks(n.size) else blocks,
            list := if Cached(n) then Minus(list, i) else list,
            cached := if Cached(n) then cached - n.size else cached)
    }

    /** A new handle: fid_create. */
    function Hold(i: nat, isOpen: bool, writable: bool): Tables
      requires i < |ns|
    {
      this.(hs := hs + [Handle(true, i, isOpen, writable)], ns := ns[i := ns[i].(openCount := ns[i].openCount + 1)])
    }

    /** A handle is freed; the open count of its inode is lowered. */
    function Unhold(h: nat): Tables
      requires h < |hs| && hs[h].ino < |ns|
    {
      var i := hs[h].ino;
      this.(hs := hs[h := hs[h].(live := false, isOpened := false)],
            ns := ns[i := ns[i].(openCount := ns[i].openCount - 1)])
    }

    /** The size, the buffer and the state of a file change. */
    function File(i: nat, size: nat, room: nat, state: State): Tables
      requires i < |ns|
    {
      var n := ns[i];
      var m := n.(size := size, room := room, state := state);
      this.(ns := ns[i := m], blocks := blocks + ToBlocks(size) - ToBlocks(n.size),
            list := if Cached(n) == Cached(m) then list else if Cached(n) then Minus(list, i) else [i] + list,
            cached := if Cached(n) == Cached(m) then cached else if Cached(n) then cached - n.size else cached + size)
    }

    /** A file has a new size. Contents that are there are local then, and so are none. */
    function Resized(i: nat, size: nat): Tables
      requires i < |ns|
    {
      if ns[i].state == Unloaded then File(i, size, 0, if size == 0 then Local else Unloaded)
      else File(i, size, ns[i].Room(size), Local)
    }

    /** Some live handle is open on the inode. */
    ghost predicate OpenedOn(i: nat) {
      exists h :: 0 <= h < |hs| && hs[h].live && hs[h].isOpened && hs[h].ino == i
    }

    /** No load waits for the handle. */
    ghost predicate NoneWaits(h: nat) {
      forall i :: 0 <= i < |ns| && ns[i].live && ns[i].state.Loading? ==> ns[i].state.waiting != Some(h)
    }

    /** inode_dirent_delete_no_decref */
    function Del(k: nat): Tables
      requires k < |es| && es[k].dir < |ns| && EntrySize(es[k].name) <= ns[es[k].dir].size
    {
      var d := es[k].dir;
      var size := ns[d].size - EntrySize(es[k].name);
      this.(ns := ns[d := ns[d].(size := size)], es := Without(es, k),
            blocks := blocks + ToBlocks(size) - ToBlocks(ns[d].size))
    }
  }
}
