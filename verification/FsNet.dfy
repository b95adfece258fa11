/** The operations of the network filesystem (fs_net.c). */
module FsNet {
  import opened Options
  import opened Sequences
  import opened Widths
  import opened FsState
  import opened VolumeSteps

  const ENOENT: int := -2
  const EIO: int := -5
  const EEXIST: int := -17
  const ENOTDIR: int := -20
  const EINVAL: int := -22
  const ENOSPC: int := -28
  const ENOTEMPTY: int := -39
  const EPERM: int := -1
  const EPROTO: int := -71
  /** An assertion of the program fails. */
  const ABORTED: int := -1000
  /** No directory is being emptied. */
  const NOTHING: int := -1

  class FileSystem {
    var inodes: seq<Inode>
    var entries: seq<Entry>
    var handles: seq<Handle>
    var fsBlocks: int
    var cacheList: seq<nat>
    var cacheSize: int
    const maxBlocks: int
    const cacheLimit: int

    ghost function T(): Tables
      reads this
    {
      Tables(inodes, entries, handles, fsBlocks, cacheList, cacheSize)
    }

    ghost predicate Valid()
      reads this
    {
      T().Ok(multiset{}, NOTHING)
    }

    /** fs_mem_init: the root directory. */
    constructor (maxBlocks: int, cacheLimit: int)
      ensures Valid() && entries == [Entry(ROOT, ".", ROOT), Entry(ROOT, "..", ROOT)] && handles == []
      ensures |inodes| == 1 && inodes[ROOT].kind == Dir && this.maxBlocks == maxBlocks
    {
      this.maxBlocks, this.cacheLimit := maxBlocks, cacheLimit;
      inodes, entries, handles := [Inode(true, Dir, 1, 0, 0, 0, Local)], [], [];
      fsBlocks, cacheList, cacheSize := 0, [], 0;
      new;
      EmptyOk(T());
      hide *;
      MakeRoot();
    }

    method MakeRoot()
      requires Valid() && entries == [] && T().IsDir(ROOT)
      modifies this
      ensures Valid() && entries == [Entry(ROOT, ".", ROOT), Entry(ROOT, "..", ROOT)] && handles == old(handles)
      ensures SameKinds(old(inodes), inodes)
    {
      hide Tables.Ok, Linked;
      RootLinked(entries);
      AddNamed(ROOT, ".", ROOT, multiset{}, NOTHING);
      RootLinked(entries);
      AddNamed(ROOT, "..", ROOT, multiset{}, NOTHING);
    }

    /** An entry with a new reference. */
    method AddNamed(d: nat, name: string, i: nat, ghost owed: multiset<nat>, ghost ex: int)
      requires T().Ok(owed, ex) && T().IsDir(d) && T().Is(i)
      requires (Linked(entries, d) || d == ex) && !HasName(entries, d, name)
      modifies this
      ensures T() == old(T()).IncRef(i).Add(d, name, i) && T().Ok(owed, ex)
    {
      hide Tables.Ok, Linked, HasName;
      IncRef(i, owed, ex);
      DirAdd(d, name, i, owed + multiset{i}, ex);
      assert owed + multiset{i} - multiset{i} == owed;
    }

    // ----- the steps

    method InodeNew(kind: Kind, ghost owed: multiset<nat>, ghost ex: int) returns (i: nat)
      requires T().Ok(owed, ex)
      modifies this
      ensures i == |old(inodes)| && T() == old(T()).New(kind) && T().Ok(owed + multiset{i}, ex)
    {
      hide Tables.Ok;
      NewKeeps(T(), owed, ex, kind);
      i := |inodes|;
      inodes := inodes + [Inode(true, kind, 1, 0, 0, 0, Local)];
    }

    method IncRef(i: nat, ghost owed: multiset<nat>, ghost ex: int)
      requires T().Ok(owed, ex) && T().Is(i)
      modifies this
      ensures T() == old(T()).IncRef(i) && T().Ok(owed + multiset{i}, ex)
    {
      hide Tables.Ok;
      IncRefKeeps(T(), owed, ex, i);
      inodes := inodes[i := inodes[i].(refcount := inodes[i].refcount + 1)];
    }

    /** inode_dir_add */
    method DirAdd(d: nat, name: string, i: nat, ghost owed: multiset<nat>, ghost ex: int)
      requires T().Ok(owed, ex) && T().IsDir(d) && i in owed
      requires (Linked(entries, d) || d == ex) && !HasName(entries, d, name)
      modifies this
      ensures T() == old(T()).Add(d, name, i) && T().Ok(owed - multiset{i}, ex)
    {
      hide Tables.Ok, Linked, HasName;
      AddKeeps(T(), owed, ex, d, name, i);
      PutEntry(d, name, i);
    }

    method PutEntry(d: nat, name: string, i: nat)
      requires d < |inodes|
      modifies this
      ensures T() == old(T()).Add(d, name, i)
    {
      var newSize := inodes[d].size + EntrySize(name);
      entries := entries + [Entry(d, name, i)];
      fsBlocks := fsBlocks + ToBlocks(newSize) - ToBlocks(inodes[d].size);
      inodes := inodes[d := inodes[d].(size := newSize)];
    }

    /** inode_dirent_delete_no_decref */
    method DirentDeleteNoDecref(k: nat, ghost owed: multiset<nat>, ghost ex: int)
      requires T().Ok(owed, ex) && k < |entries| && CanGo(entries, k, ex)
      modifies this
      ensures old(T().IsDir(entries[k].dir) && EntrySize(entries[k].name) <= inodes[entries[k].dir].size)
      ensures T() == old(T()).Del(k) && T().Ok(owed + multiset{old(entries)[k].ino}, ex)
    {
      hide Tables.Ok, CanGo;
      DelKeeps(T(), owed, ex, k);
      var d := entries[k].dir;
      var newSize := inodes[d].size - EntrySize(entries[k].name);
      fsBlocks := fsBlocks + ToBlocks(newSize) - ToBlocks(inodes[d].size);
      inodes := inodes[d := inodes[d].(size := newSize)];
      entries := Without(entries, k);
    }

    /** inode_free */
    method InodeFree(i: nat, ghost owed: multiset<nat>, ghost ex: int)
      requires FreeOk(T(), owed, ex, i)
      modifies this
      ensures old(Cached(inodes[i]) ==> i in cacheList)
      ensures T() == old(T()).Freed(i) && T().Ok(owed, ex)
    {
      hide Tables.Ok, FreeOk;
      FreedKeeps(T(), owed, ex, i);
      FreeIs(T(), owed, ex, i);
      PutFreed(i);
    }

    method PutFreed(i: nat)
      requires i < |inodes| && inodes[i].live && (Cached(inodes[i]) ==> i in cacheList)
      modifies this
      ensures T() == old(T()).Freed(i)
    {
      var n := inodes[i];
      if n.kind == Reg {
        fsBlocks := fsBlocks - ToBlocks(n.size);
        if n.state == Loaded {
          cacheList := Minus(cacheList, i);
          cacheSize := cacheSize - n.size;
        }
      }
      inodes := inodes[i := n.(live := false)];
    }

    /** inode_decref */
    method Decref(i: nat, ghost owed: multiset<nat>, ghost ex: int)
      requires T().Ok(owed, ex) && i in owed && (i != ex || i >= |inodes| || inodes[i].refcount > 1)
      modifies this
      ensures T().Ok(owed - multiset{i}, ex) && entries == old(entries) && handles == old(handles)
      ensures |inodes| == |old(inodes)| && i < |inodes|
      ensures forall j :: 0 <= j < |inodes| && j != i ==> inodes[j] == old(inodes[j])
      ensures inodes[i].refcount == old(inodes[i].refcount) - 1 && inodes[i].kind == old(inodes[i].kind)
    {
      hide Tables.Ok, FreeOk;
      DecRefStep(T(), owed, ex, i);
      inodes := inodes[i := inodes[i].(refcount := inodes[i].refcount - 1)];
      if inodes[i].refcount <= 0 && inodes[i].openCount <= 0 {
        InodeFree(i, owed - multiset{i}, ex);
      }
    }

    /** inode_dirent_delete */
    method DirentDelete(k: nat, ghost owed: multiset<nat>, ghost ex: int)
      requires T().Ok(owed, ex) && k < |entries| && CanGo(entries, k, ex)
      requires entries[k].ino != ex || entries[k].ino >= |inodes| || inodes[entries[k].ino].refcount > 1
      modifies this
      ensures T().Ok(owed, ex) && entries == Without(old(entries), k) && handles == old(handles)
      ensures SameKinds(old(inodes), inodes)
    {
      hide Tables.Ok, CanGo;
      var n1 := entries[k].ino;
      DirentDeleteNoDecref(k, owed, ex);
      assert owed + multiset{n1} - multiset{n1} == owed;
      Decref(n1, owed + multiset{n1}, ex);
    }

    /** inode_search */
    method Search(d: nat, name: string) returns (r: Option<nat>)
      requires d < |inodes|
      ensures r.Some? ==> r.value < |entries| && IsEntry(entries[r.value], d, name)
      ensures r.Some? <==> inodes[d].kind == Dir && HasName(entries, d, name)
    {
      if inodes[d].kind != Dir {
        return None;
      }
      var k := 0;
      while k < |entries|
        invariant k <= |entries| && forall j :: 0 <= j < k ==> !IsEntry(entries[j], d, name)
      {
        if entries[k].dir == d && entries[k].name == name {
          return Some(k);
        }
        k := k + 1;
      }
      return None;
    }

    predicate IsHandle(f: nat)
      reads this
    {
      f < |handles| && handles[f].live
    }

    /** The directory is not unlinked. */
    ghost predicate Usable(d: nat)
      reads this
    {
      d < |inodes| && (inodes[d].kind == Dir ==> Linked(entries, d))
    }

    // ----- the operations

    /** fs_attach */
    method Attach() returns (f: nat)
      requires Valid()
      modifies this
      ensures Valid() && f == |old(handles)| && ROOT < |old(inodes)| && T() == old(T()).Hold(ROOT, false, false)
    {
      hide Tables.Ok;
      RootOk(T(), multiset{}, NOTHING);
      f := FidCreate(ROOT, false, false);
    }

    /** fid_create */
    method FidCreate(i: nat, isOpen: bool, writable: bool) returns (f: nat)
      requires Valid() && T().Is(i) && (isOpen && inodes[i].kind == Reg ==>
                                        inodes[i].state == Local || inodes[i].state == Loaded)
      modifies this
      ensures Valid() && f == |old(handles)| && T() == old(T()).Hold(i, isOpen, writable)
    {
      hide Tables.Ok;
      HoldKeeps(T(), multiset{}, NOTHING, i, isOpen, writable);
      f := |handles|;
      handles := handles + [Handle(true, i, isOpen, writable)];
      inodes := inodes[i := inodes[i].(openCount := inodes[i].openCount + 1)];
    }

    /** fs_walk: a new handle on the inode that as many of the names lead to as are found. */
    method Walk(f: nat, names: seq<string>) returns (count: nat, newf: nat)
      requires Valid() && IsHandle(f)
      modifies this
      ensures Valid() && count <= |names| && newf == |old(handles)| && |handles| == newf + 1 && IsHandle(newf)
      ensures handles[newf].ino < |old(inodes)| && T() == old(T()).Hold(handles[newf].ino, false, false)
      ensures Path(entries, old(handles)[f].ino, names[..count], handles[newf].ino)
      ensures count < |names| ==> !HasName(entries, handles[newf].ino, names[count])
    {
      hide Tables.Ok;
      HandleOk(T(), multiset{}, NOTHING, f);
      var n := handles[f].ino;
      count := 0;
      while count < |names|
        invariant T() == old(T()) && count <= |names| && T().Is(n) && Path(entries, handles[f].ino, names[..count], n)
      {
        var de := Search(n, names[count]);
        if de.None? {
          NothingFound(T(), multiset{}, NOTHING, n, names[count]);
          break;
        }
        EntryOk(T(), multiset{}, NOTHING, de.value);
        PathMore(entries, handles[f].ino, names, count, n, de.value);
        n := entries[de.value].ino;
        count := count + 1;
      }
      ghost var was := entries;
      newf := FidCreate(n, false, false);
      assert entries == was;
    }

    /** fs_mkdir: in a directory that is unlinked the new one is out of reach, and the invariant is lost. */
    method Mkdir(f: nat, name: string) returns (ret: int)
      requires Valid() && IsHandle(f)
      modifies this
      ensures old(handles[f].ino < |inodes|) && handles == old(handles)
      ensures ret == if old(inodes[handles[f].ino].kind) != Dir then ENOTDIR
                     else if old(HasName(entries, handles[f].ino, name)) then EEXIST else 0
      ensures ret != 0 ==> T() == old(T())
      ensures ret == 0 ==>
                var d, n1 := old(handles)[f].ino, |old(inodes)|;
                && entries == old(entries) + [Entry(n1, ".", n1)] + [Entry(n1, "..", d)] + [Entry(d, name, n1)]
                && SameKinds(old(inodes) + [Inode(true, Dir, 2, 0, 0, 0, Local)], inodes)
      ensures Valid() <==> (ret == 0 ==> old(Usable(handles[f].ino)))
    {
      hide Tables.Ok, Linked, HasName;
      HandleOk(T(), multiset{}, NOTHING, f);
      var n := handles[f].ino;
      if inodes[n].kind != Dir {
        return ENOTDIR;
      }
      var de := Search(n, name);
      if de.Some? {
        return EEXIST;
      }
      EntriesBelow(T(), multiset{}, NOTHING);
      ghost var es := entries;
      Emptying(T(), multiset{}, n);
      var n1 := InodeNew(Dir, multiset{}, n);
      NewNames(es, n1, n, name);
      ghost var owed := multiset{} + multiset{n1};
      AddDot(n1, owed, n);
      AddNamed(n1, "..", n, owed, n);
      DirAdd(n, name, n1, owed, n);
      assert owed - multiset{n1} == multiset{};
      NewLinked(es, n1, n, name);
      LastIn(entries, n);
      BusyDone(T(), multiset{}, n);
      ret := 0;
    }

    /** The dot of a new directory. */
    method AddDot(n1: nat, ghost owed: multiset<nat>, ghost ex: int)
      requires T().Ok(owed, ex) && T().IsDir(n1) && !HasName(entries, n1, ".")
      modifies this
      ensures T() == old(T()).IncRef(n1).Add(n1, ".", n1) && T().Ok(owed, ex) && Linked(entries, n1)
    {
      hide Tables.Ok, Linked, HasName;
      IncRef(n1, owed, ex);
      AddKeeps(T(), owed + multiset{n1}, ex, n1, ".", n1);
      PutEntry(n1, ".", n1);
      LinkedAdded(old(entries), Entry(n1, ".", n1), n1);
      assert owed + multiset{n1} - multiset{n1} == owed;
    }

    /** A new inode that is not a directory, with a name: fs_symlink, fs_mknod, and part of fs_create. */
    method NewNamed(n: nat, name: string, kind: Kind) returns (n1: nat)
      requires T().Ok(multiset{}, n) && T().IsDir(n) && kind != Dir && !HasName(entries, n, name)
      modifies this
      ensures T().Ok(multiset{}, n) && n1 == |old(inodes)| && T() == old(T()).New(kind).Add(n, name, n1)
    {
      hide Tables.Ok, Linked, HasName;
      n1 := InodeNew(kind, multiset{}, n);
      ghost var owed := multiset{} + multiset{n1};
      DirAdd(n, name, n1, owed, n);
      assert owed - multiset{n1} == multiset{};
    }

    /** fs_symlink and fs_mknod: the entry is only made in a directory. */
    method MakeNode(f: nat, name: string, kind: Kind) returns (ret: int)
      requires Valid() && IsHandle(f)
      modifies this
      ensures old(handles[f].ino < |inodes|) && handles == old(handles)
      ensures ret == if kind == Dir then EINVAL
                     else if old(HasName(entries, handles[f].ino, name)) then EEXIST
                     else if old(inodes[handles[f].ino].kind) != Dir then ABORTED else 0
      ensures ret != 0 ==> T() == old(T())
      ensures ret == 0 ==> entries == old(entries) + [Entry(old(handles)[f].ino, name, |old(inodes)|)]
      ensures Valid() <==> (ret == 0 ==> old(Usable(handles[f].ino)))
    {
      hide Tables.Ok, Linked, HasName;
      HandleOk(T(), multiset{}, NOTHING, f);
      if kind == Dir {
        return EINVAL;
      }
      var n := handles[f].ino;
      var de := Search(n, name);
      if de.Some? {
        return EEXIST;
      }
      NothingFound(T(), multiset{}, NOTHING, n, name);
      if inodes[n].kind != Dir {
        return ABORTED;
      }
      Emptying(T(), multiset{}, n);
      var n1 := NewNamed(n, name, kind);
      OtherLinked(old(entries), Entry(n, name, n1));
      LastIn(entries, n);
      BusyDone(T(), multiset{}, n);
      ret := 0;
    }

    /** fs_link */
    method Link(df: nat, f: nat, name: string) returns (ret: int)
      requires Valid() && IsHandle(df) && IsHandle(f)
      modifies this
      ensures old(handles[df].ino < |inodes| && handles[f].ino < |inodes|) && handles == old(handles)
      ensures ret == if old(inodes[handles[f].ino].kind) == Dir then EPERM
                     else if old(HasName(entries, handles[df].ino, name)) then EEXIST
                     else if old(inodes[handles[df].ino].kind) != Dir then ABORTED else 0
      ensures ret != 0 ==> T() == old(T())
      ensures ret == 0 ==> entries == old(entries) + [Entry(old(handles)[df].ino, name, old(handles)[f].ino)]
      ensures Valid() <==> (ret == 0 ==> old(Usable(handles[df].ino)))
    {
      hide Tables.Ok, Linked, HasName;
      HandleOk(T(), multiset{}, NOTHING, df);
      HandleOk(T(), multiset{}, NOTHING, f);
      var n, i := handles[df].ino, handles[f].ino;
      if inodes[i].kind == Dir {
        return EPERM;
      }
      var de := Search(n, name);
      if de.Some? {
        return EEXIST;
      }
      NothingFound(T(), multiset{}, NOTHING, n, name);
      if inodes[n].kind != Dir {
        return ABORTED;
      }
      Emptying(T(), multiset{}, n);
      AddNamed(n, name, i, multiset{}, n);
      OtherLinked(old(entries), Entry(n, name, i));
      LastIn(entries, n);
      BusyDone(T(), multiset{}, n);
      ret := 0;
    }

    /** fs_close */
    method Close(f: nat)
      requires Valid() && IsHandle(f)
      modifies this
      ensures Valid() && T() == old(T()).(hs := old(handles)[f := old(handles)[f].(isOpened := false)])
    {
      hide Tables.Ok;
      HandleOk(T(), multiset{}, NOTHING, f);
      MarkKeeps(T(), multiset{}, NOTHING, f, false, handles[f].writable);
      handles := handles[f := handles[f].(isOpened := false)];
    }

    /** fs_delete: the handle is closed and freed, and with it an inode that it kept. A load that waits for the handle
        goes on waiting, and the invariant is lost unless the inode goes too. */
    method Delete(f: nat)
      requires Valid() && IsHandle(f)
      modifies this
      ensures old(handles[f].ino < |inodes|)
      ensures if old(Alone(FileOf(f))) then T() == Gone(old(T()), f) else T() == old(T()).Unhold(f)
      ensures Valid() <==> old(T().NoneWaits(f) || Alone(FileOf(f)))
    {
      hide Tables.Ok, FreeOk, Tables.NoneWaits, Opens;
      ghost var was := T();
      HandleOk(was, multiset{}, NOTHING, f);
      var i := handles[f].ino;
      CountsAre(was, multiset{}, NOTHING, i);
      if was.NoneWaits(f) {
        UnholdStep(was, multiset{}, NOTHING, f);
        if Alone(was.ns[i]) { FreedKeeps(was.Unhold(f), multiset{}, NOTHING, i); }
      } else if Alone(was.ns[i]) {
        GoneKeeps(was, f);
      } else {
        StillWaiting(was, f);
      }
      handles := handles[f := handles[f].(live := false, isOpened := false)];
      inodes := inodes[i := inodes[i].(openCount := inodes[i].openCount - 1)];
      if inodes[i].openCount <= 0 && inodes[i].refcount <= 0 {
        PutFreed(i);
      }
    }

    /** fs_create: the handle moves from the directory to the new file, which is open. A directory that only the handle
        kept is freed, and the program asserts that it is empty. */
    method Create(f: nat, name: string, writable: bool) returns (ret: int)
      requires Valid() && IsHandle(f)
      modifies this
      ensures old(handles[f].ino < |inodes|)
      ensures ret == if old(inodes[handles[f].ino].kind) != Dir then ENOTDIR
                     else if old(HasName(entries, handles[f].ino, name)) then EEXIST
                     else if old(Alone(inodes[handles[f].ino])) then ABORTED else 0
      ensures ret == ENOTDIR || ret == EEXIST ==> T() == old(T())
      ensures ret == 0 ==> entries == old(entries) + [Entry(old(handles)[f].ino, name, |old(inodes)|)]
      ensures ret == 0 ==> handles == old(handles)[f := Handle(true, |old(inodes)|, true, writable)]
      ensures ret == 0 ==> |inodes| == |old(inodes)| + 1 && inodes[|old(inodes)|] == Inode(true, Reg, 1, 1, 0, 0, Local)
      ensures Valid() <==> (ret == 0 || ret == ABORTED ==> old(Usable(handles[f].ino)))
    {
      hide Tables.Ok, Linked, HasName;
      HandleOk(T(), multiset{}, NOTHING, f);
      var n := handles[f].ino;
      if inodes[n].kind != Dir {
        return ENOTDIR;
      }
      var de := Search(n, name);
      if de.Some? {
        return EEXIST;
      }
      if Linked(entries, n) { LinkedNamed(T(), multiset{}, NOTHING, n); }
      Close(f);
      Emptying(T(), multiset{}, n);
      var n1 := NewNamed(n, name, Reg);
      OtherLinked(old(entries), Entry(n, name, n1));
      LastIn(entries, n);
      BusyDone(T(), multiset{}, n);
      if inodes[n].openCount - 1 <= 0 && inodes[n].refcount <= 0 {
        RefcountIs(T(), multiset{}, n, n);
        HandleOk(T(), multiset{}, n, f);
        return ABORTED;
      }
      DirectoryHandle(T(), multiset{}, n, f);
      MoveHandle(f, n, n1, writable);
      BusyDone(T(), multiset{}, n);
      ret := 0;
    }

    method MoveHandle(f: nat, n: nat, n1: nat, writable: bool)
      requires T().Ok(multiset{}, n) && IsHandle(f) && handles[f].ino == n < |inodes| && T().Is(n1) && n1 != n
      requires inodes[n1].state == Local && T().NoneWaits(f) && (inodes[n].refcount > 0 || inodes[n].openCount > 1)
      modifies this
      ensures T() == Moved(old(T()), f, n1, writable) && T().Ok(multiset{}, n)
    {
      hide Tables.Ok;
      MovedKeeps(T(), multiset{}, n, f, n1, writable);
      inodes := inodes[n := inodes[n].(openCount := inodes[n].openCount - 1)];
      inodes := inodes[n1 := inodes[n1].(openCount := inodes[n1].openCount + 1)];
      handles := handles[f := Handle(true, n1, true, writable)];
    }

    /** fs_renameat: not of a file onto itself, and not to a dot that is not there. The moved name is gone, the new name
        refers to the inode, and nothing else changes. */
    method RenameAt(f: nat, name: string, newf: nat, newName: string) returns (ret: int, ghost at: nat)
      requires Valid() && IsHandle(f) && IsHandle(newf)
      requires handles[f].ino == handles[newf].ino && name == newName ==> NamesDirectory(handles[newf].ino, newName)
      requires IsDotName(newName) ==> NamesDirectory(handles[newf].ino, newName)
      modifies this
      ensures old(handles[f].ino < |inodes| && handles[newf].ino < |inodes|) && handles == old(handles)
      ensures ret == if !old(HasName(entries, handles[f].ino, name)) then ENOENT
                     else if old(HasName(entries, handles[newf].ino, newName)) then
                       if old(NamesDirectory(handles[newf].ino, newName)) then EEXIST else 0
                     else if old(inodes[handles[newf].ino].kind) != Dir then ABORTED else 0
      ensures ret != 0 ==> T() == old(T())
      ensures ret == 0 ==> at < |old(entries)| && IsEntry(old(entries)[at], old(handles)[f].ino, name)
      ensures ret == 0 ==> forall x: Entry :: x in entries <==>
                || x == Entry(old(handles)[newf].ino, newName, old(entries)[at].ino)
                || (x in old(entries) && !IsEntry(x, old(handles)[f].ino, name)
                    && !IsEntry(x, old(handles)[newf].ino, newName))
      ensures Valid() <==>
                (ret == 0 ==> old(Usable(handles[newf].ino)) || old(entries)[at].ino == old(handles)[newf].ino)
    {
      hide Tables.Ok, Linked, CanGo, HasName, FileSystem.NamesDirectory, Unique;
      HandleOk(T(), multiset{}, NOTHING, f);
      HandleOk(T(), multiset{}, NOTHING, newf);
      UniqueNames(T(), multiset{}, NOTHING);
      var d, newd := handles[f].ino, handles[newf].ino;
      NamedDirectory(newd, newName);
      var de := Search(d, name);
      if de.None? {
        NothingFound(T(), multiset{}, NOTHING, d, name);
        return ENOENT, 0;
      }
      NameAt(entries, de.value);
      var k := de.value;
      at := k;
      var de1 := Search(newd, newName);
      EntryOk(T(), multiset{}, NOTHING, k);
      if de1.Some? {
        var k1, n1 := de1.value, entries[de1.value].ino;
        EntryOk(T(), multiset{}, NOTHING, k1);
        TheName(k1, newd, newName);
        if inodes[n1].kind == Dir {
          return EEXIST, 0;
        }
        Replace(k, k1, newd, newName);
      } else {
        NothingFound(T(), multiset{}, NOTHING, newd, newName);
        if inodes[newd].kind != Dir {
          return ABORTED, 0;
        }
        Emptying(T(), multiset{}, newd);
        Rename(k, newd, newName, multiset{});
        RenamedSet(old(entries), Entry(newd, newName, old(entries)[k].ino), k);
        RenamedLinked(old(entries), Entry(newd, newName, old(entries)[k].ino), k);
        BusyDone(T(), multiset{}, newd);
      }
      ret := 0;
    }

    lemma NamedDirectory(d: nat, name: string)
      ensures NamesDirectory(d, name) ==> HasName(entries, d, name)
    {
    }

    /** A name that is found is the only one. */
    lemma TheName(k: nat, d: nat, name: string)
      requires Unique(entries) && k < |entries| && IsEntry(entries[k], d, name) && entries[k].ino < |inodes|
      ensures NamesDirectory(d, name) <==> inodes[entries[k].ino].kind == Dir
      ensures HasName(entries, d, name)
    {
    }

    /** An entry that is not a directory is replaced by one that is moved. */
    method Replace(k0: nat, k1: nat, newd: nat, newName: string)
      requires Valid() && k0 < |entries| && k1 < |entries| && k0 != k1 && !IsDotName(newName)
      requires entries[k1].ino < |inodes| && inodes[entries[k1].ino].kind != Dir && IsEntry(entries[k1], newd, newName)
      requires T().IsDir(newd) && !IsEntry(entries[k0], newd, newName)
      modifies this
      ensures Valid() && handles == old(handles) && Linked(old(entries), newd)
      ensures forall x: Entry :: x in entries <==>
                || x == Entry(newd, newName, old(entries)[k0].ino)
                || (x in old(entries) && !IsEntry(x, old(entries)[k0].dir, old(entries)[k0].name)
                    && !IsEntry(x, newd, newName))
    {
      hide Tables.Ok, Unique, HasName;
      var n1 := entries[k1].ino;
      ghost var es := entries;
      FileIsEmpty(T(), multiset{}, NOTHING, n1);
      UniqueNames(T(), multiset{}, NOTHING);
      InLinked(T(), multiset{}, NOTHING, k1);
      StillLinked(entries, k1, newd);
      WithoutSet(entries, k1);
      NameGone(entries, k1);
      DirentDeleteNoDecref(k1, multiset{}, NOTHING);
      hide Linked, CanGo;
      ghost var owed := multiset{} + multiset{n1};
      var k := if k1 < k0 then k0 - 1 else k0;
      assert entries[k] == es[k0];
      UniqueNames(T(), owed, NOTHING);
      Emptying(T(), owed, newd);
      ghost var mid, e := entries, Entry(newd, newName, entries[k].ino);
      Rename(k, newd, newName, owed);
      RenamedSet(mid, e, k);
      RenamedLinked(mid, e, k);
      BusyDone(T(), owed, newd);
      Decref(n1, owed, NOTHING);
      assert owed - multiset{n1} == multiset{};
    }

    /** The moved entry is added under its new name, and then deleted. */
    method Rename(k: nat, newd: nat, newName: string, ghost owed: multiset<nat>)
      requires T().Ok(owed, newd) && k < |entries| && !IsDotName(newName) && T().IsDir(newd)
      requires !HasName(entries, newd, newName)
      modifies this
      ensures T().Ok(owed, newd) && handles == old(handles) && SameKinds(old(inodes), inodes)
      ensures entries == Without(old(entries) + [Entry(newd, newName, old(entries)[k].ino)], k)
    {
      hide Tables.Ok, Linked, CanGo, HasName;
      EntryOk(T(), owed, newd, k);
      ghost var e := Entry(newd, newName, entries[k].ino);
      AddNamed(newd, newName, entries[k].ino, owed, newd);
      MovedCanGo(old(entries), e, k, newd);
      NamedTwice(entries, |old(entries)|, k);
      RefcountIs(T(), owed, newd, entries[k].ino);
      DirentDelete(k, owed, newd);
    }

    /** The name is taken by directories. */
    ghost predicate NamesDirectory(d: nat, name: string)
      reads this
    {
      && (exists k :: 0 <= k < |entries| && IsEntry(entries[k], d, name))
      && (forall k :: 0 <= k < |entries| && IsEntry(entries[k], d, name) ==>
            entries[k].ino < |inodes| && inodes[entries[k].ino].kind == Dir)
    }

    /** is_empty_dir */
    method IsEmptyDir(n: nat) returns (r: bool)
      ensures r <==> forall k :: 0 <= k < |entries| && entries[k].dir == n ==>
                entries[k].name == "." || entries[k].name == ".."
    {
      var k := 0;
      while k < |entries|
        invariant k <= |entries|
        invariant forall j :: 0 <= j < k && entries[j].dir == n ==> entries[j].name == "." || entries[j].name == ".."
      {
        if entries[k].dir == n && entries[k].name != "." && entries[k].name != ".." {
          return false;
        }
        k := k + 1;
      }
      return true;
    }

    /** flush_dir: the entries of a directory are deleted, while entry `at0` still names it. */
    method FlushDir(n: nat, at0: nat) returns (at: nat)
      requires T().Ok(multiset{}, n) && at0 < |entries| && entries[at0].ino == n && entries[at0].dir != n
      requires OnlyDots(entries, n)
      modifies this
      ensures T().Ok(multiset{}, n) && handles == old(handles) && SameKinds(old(inodes), inodes)
      ensures at < |entries| && entries[at] == old(entries)[at0]
      ensures forall x: Entry :: x in entries <==> x in old(entries) && x.dir != n
    {
      hide Tables.Ok;
      at := at0;
      var j := 0;
      while j < |entries|
        invariant T().Ok(multiset{}, n) && handles == old(handles) && SameKinds(old(inodes), inodes)
        invariant j <= |entries| && at < |entries| && entries[at] == old(entries)[at0]
        invariant OnlyDots(entries, n) && forall k :: 0 <= k < j ==> entries[k].dir != n
        invariant forall x: Entry :: x.dir != n ==> (x in entries <==> x in old(entries))
        decreases |entries| - j
      {
        if entries[j].dir == n {
          if entries[j].ino == n {
            NamedTwice(entries, j, at);
            RefcountIs(T(), multiset{}, n, n) by { EntryOk(T(), multiset{}, n, at); }
          }
          DotCanGo(entries, j, n);
          OthersStay(entries, j);
          DirentDelete(j, multiset{}, n);
          at := if j < at then at - 1 else at;
        } else {
          j := j + 1;
        }
      }
    }

    /** fs_unlinkat: the name is gone, and with the name of a directory its dots. */
    method UnlinkAt(f: nat, name: string) returns (ret: int)
      requires Valid() && IsHandle(f)
      modifies this
      ensures Valid() && handles == old(handles) && SameKinds(old(inodes), inodes)
      ensures ret == if IsDotName(name) || !old(HasName(entries, handles[f].ino, name)) then ENOENT
                     else if old(FullDirectory(handles[f].ino, name)) then ENOTEMPTY else 0
      ensures ret != 0 ==> T() == old(T())
      ensures ret == 0 ==> forall x: Entry :: x in entries <==>
                && x in old(entries) && !IsEntry(x, old(handles)[f].ino, name)
                && !old(InDirectory(x, handles[f].ino, name))
    {
      hide Tables.Ok, CanGo, HasName, Unique, FileSystem.FullDirectory, FileSystem.InDirectory;
      if name == "." || name == ".." {
        return ENOENT;
      }
      HandleOk(T(), multiset{}, NOTHING, f);
      UniqueNames(T(), multiset{}, NOTHING);
      var d := handles[f].ino;
      var de := Search(d, name);
      if de.None? {
        NothingFound(T(), multiset{}, NOTHING, d, name);
        return ENOENT;
      }
      NameAt(entries, de.value);
      var k, n := de.value, entries[de.value].ino;
      EntryOk(T(), multiset{}, NOTHING, k);
      WhatIsIn(k, d, name);
      if inodes[n].kind == Dir {
        var empty := IsEmptyDir(n);
        if !empty {
          return ENOTEMPTY;
        }
        Emptying(T(), multiset{}, n);
        k := FlushDir(n, k);
        Emptied(T(), multiset{}, n);
      } else {
        FileIsEmpty(T(), multiset{}, NOTHING, n);
      }
      UniqueNames(T(), multiset{}, NOTHING);
      WithoutSet(entries, k);
      EmptyCanGo(entries, k);
      DirentDelete(k, multiset{}, NOTHING);
      ret := 0;
    }

    /** The name is that of a directory with more than its dots in it. */
    ghost predicate FullDirectory(d: nat, name: string)
      reads this
    {
      exists k, j :: 0 <= k < |entries| && 0 <= j < |entries| && IsEntry(entries[k], d, name)
        && entries[j].dir == entries[k].ino && !IsDotName(entries[j].name)
    }

    /** The entry is in the directory of that name. */
    ghost predicate InDirectory(x: Entry, d: nat, name: string)
      reads this
    {
      exists k :: 0 <= k < |entries| && IsEntry(entries[k], d, name) && entries[k].ino == x.dir
    }

    lemma WhatIsIn(k: nat, d: nat, name: string)
      requires Unique(entries) && k < |entries| && IsEntry(entries[k], d, name)
      ensures FullDirectory(d, name) <==> !OnlyDots(entries, entries[k].ino)
      ensures forall x: Entry :: InDirectory(x, d, name) <==> x.dir == entries[k].ino
    {
    }

    // ----- contents

    /** The size, the buffer and the state of a file change, with what depends on them. */
    method SetFile(i: nat, size: nat, room: nat, state: State)
      requires Valid() && T().Is(i) && inodes[i].kind == Reg
      requires state == Local || state == Loaded || !T().OpenedOn(i)
      requires Waits(state, handles, i) && Fits(size, room, state)
      requires Cached(inodes[i]) && state == Loaded ==> size == inodes[i].size
      modifies this
      ensures Valid() && T() == old(T()).File(i, size, room, state)
    {
      hide Tables.Ok, Tables.OpenedOn;
      FileKeeps(T(), multiset{}, NOTHING, i, size, room, state);
      PutFile(i, size, room, state);
    }

    method PutFile(i: nat, size: nat, room: nat, state: State)
      requires i < |inodes|
      modifies this
      ensures T() == old(T()).File(i, size, room, state)
    {
      var n := inodes[i];
      var m := n.(size := size, room := room, state := state);
      fsBlocks := fsBlocks + ToBlocks(size) - ToBlocks(n.size);
      if Cached(n) && !Cached(m) {
        cacheList, cacheSize := Minus(cacheList, i), cacheSize - n.size;
      } else if !Cached(n) && Cached(m) {
        cacheList, cacheSize := [i] + cacheList, cacheSize + size;
      }
      inodes := inodes[i := m];
    }

    /** fs_trim_cache: the files behind place `p` of the cache that have no handle leave it, least recently used first,
        and no more of them than it takes. */
    method TrimCache(addedSize: int) returns (ghost p: nat)
      requires Valid()
      modifies this
      ensures Valid() && entries == old(entries) && handles == old(handles) && p <= |old(cacheList)|
      ensures cacheList == old(cacheList)[..p] + Busy(old(cacheList)[p..], old(inodes))
      ensures inodes == AfterTrim(old(inodes), old(cacheList)[p..]) && Trimmed(old(inodes), inodes)
      ensures cacheSize + addedSize <= cacheLimit || p == 0
      ensures old(cacheSize) + addedSize <= cacheLimit ==> p == |old(cacheList)|
      ensures p < |old(cacheList)| && cacheSize + addedSize <= cacheLimit ==>
                var i := old(cacheList)[p];
                i < |old(inodes)| && old(inodes)[i].openCount == 0
                && cacheSize + old(inodes)[i].size + addedSize > cacheLimit
    {
      hide Tables.Ok, Tables.OpenedOn, Busy, AfterTrim, Trimmed, CacheList;
      ghost var list, ns := cacheList, inodes;
      CacheListOk(T());
      TrimStart(T());
      p := |list|;
      if cacheSize + addedSize <= cacheLimit {
        return;
      }
      var k: nat := |cacheList|;
      while k > 0
        invariant Valid() && entries == old(entries) && handles == old(handles) && k <= |list| && p == k
        invariant cacheList == list[..k] + Busy(list[k..], ns) && inodes == AfterTrim(ns, list[k..])
        invariant cacheSize + addedSize > cacheLimit
      {
        k := k - 1;
        p := k;
        InList();
        TrimAt(list, ns, k, cacheList, inodes);
        if inodes[cacheList[k]].openCount == 0 {
          ghost var size, i := cacheSize, list[k];
          EvictAt(k);
          if cacheSize + addedSize <= cacheLimit {
            TrimmedAll(ns, list, k);
            return;
          }
        }
      }
      TrimmedAll(ns, list, 0);
    }

    lemma InList()
      requires Valid()
      ensures forall k :: 0 <= k < |cacheList| ==> cacheList[k] < |inodes|
    {
      ListOk(T(), multiset{}, NOTHING);
      hide Tables.Ok;
    }

    /** A file without handles leaves the cache. */
    method EvictAt(k: nat)
      requires Valid() && k < |cacheList| && cacheList[k] < |inodes| && inodes[cacheList[k]].openCount == 0
      modifies this
      ensures Valid() && entries == old(entries) && handles == old(handles) && cacheList == Without(old(cacheList), k)
      ensures old(Cached(inodes[cacheList[k]])) && cacheSize == old(cacheSize - inodes[cacheList[k]].size)
      ensures inodes == old(inodes)[old(cacheList[k]) := Dropped(old(inodes[cacheList[k]]))]
    {
      hide Tables.Ok, Tables.OpenedOn;
      ListOk(T(), multiset{}, NOTHING);
      var n := cacheList[k];
      NotOpened(T(), multiset{}, NOTHING, n);
      BuffersOk(T(), multiset{}, NOTHING, n);
      MinusAt(cacheList, k);
      SetFile(n, inodes[n].size, 0, Unloaded);
    }

    /** fs_open_wget: the file is being loaded, perhaps for a handle that waits for it, if there is memory for it. */
    method OpenWget(i: nat, waiting: Option<nat>, memory: nat) returns (ret: int)
      requires Valid() && T().Is(i) && inodes[i].kind == Reg && inodes[i].state == Unloaded && memory <= MEMORY
      requires waiting.Some? ==> IsHandle(waiting.value) && handles[waiting.value].ino == i
      modifies this
      ensures Valid() && entries == old(entries) && handles == old(handles) && |inodes| == |old(inodes)|
      ensures ret == if old(inodes[i].size) <= memory then 0 else EIO
      ensures inodes[i] == if ret == 0 then Loads(old(inodes[i]), waiting) else old(inodes[i])
      ensures Trimmed(old(inodes), inodes[i := old(inodes[i])])
    {
      hide Tables.Ok, Tables.OpenedOn;
      ghost var p := TrimCache(inodes[i].size);
      if inodes[i].size > memory {
        return EIO;
      }
      NotOpened(T(), multiset{}, NOTHING, i);
      SetFile(i, inodes[i].size, inodes[i].size, Loading(waiting));
      ret := 0;
    }

    /** fs_wget_set_loaded: the contents are there, and the handle that waited for them is open. */
    method SetLoaded(i: nat)
      requires Valid() && T().Is(i) && inodes[i].state.Loading?
      modifies this
      ensures Valid() && entries == old(entries) && |inodes| == |old(inodes)| && cacheList == [i] + old(cacheList)
      ensures inodes[i].state == Loaded && handles == Opened(old(handles), old(inodes[i].state))
    {
      hide Tables.Ok, Tables.OpenedOn;
      OnlyFilesLoad(T(), multiset{}, NOTHING, i);
      BuffersOk(T(), multiset{}, NOTHING, i);
      var waiting := inodes[i].state.waiting;
      SetFile(i, inodes[i].size, inodes[i].room, Loaded);
      if waiting.Some? {
        var f := waiting.value;
        MarkKeeps(T(), multiset{}, NOTHING, f, true, handles[f].writable);
        handles := handles[f := handles[f].(isOpened := true)];
      }
    }

    /** fs_wget_set_error: the file can be loaded again later. */
    method SetError(i: nat)
      requires Valid() && T().Is(i) && inodes[i].state.Loading?
      modifies this
      ensures Valid() && entries == old(entries) && handles == old(handles) && |inodes| == |old(inodes)|
      ensures inodes[i].state == Unloaded
    {
      hide Tables.Ok, Tables.OpenedOn;
      OnlyFilesLoad(T(), multiset{}, NOTHING, i);
      NotOpened(T(), multiset{}, NOTHING, i);
      BuffersOk(T(), multiset{}, NOTHING, i);
      SetFile(i, inodes[i].size, 0, Unloaded);
    }

    /** fs_net_set_url: an empty file stands for one on the server, if the base of its address is known. Nothing checks
        that no handle is open on it, and then the invariant is lost. */
    method SetUrl(i: nat, known: bool, size: nat) returns (ret: int)
      requires Valid() && T().Is(i) && size < U64
      modifies this
      ensures ret == if !known then ENOENT else if old(Plain(inodes[i])) then 0 else EIO
      ensures T() == if ret == 0 && size > 0 then old(T()).File(i, size, 0, Unloaded) else old(T())
      ensures Valid() <==> (known && old(Plain(inodes[i])) && size > 0 ==> !old(T().OpenedOn(i)))
    {
      hide Tables.Ok, Tables.OpenedOn;
      if !known {
        return ENOENT;
      }
      if inodes[i].kind != Reg || inodes[i].state != Local || inodes[i].room != 0 {
        return EIO;
      }
      if size > 0 {
        ghost var was := T();
        if !was.OpenedOn(i) { FileKeeps(was, multiset{}, NOTHING, i, size, 0, Unloaded); }
        PutFile(i, size, 0, Unloaded);
        if was.OpenedOn(i) { UnloadedUnderHandle(was, T(), i); }
      }
      ret := 0;
    }

    /** fs_truncate: the difference of the sizes is a signed word. A size that is larger by 2^63 or more is taken for a
        smaller one: no quota is tested, no room is made, and the invariant is lost. `memory` is the largest buffer
        that can be allocated. */
    method Truncate(i: nat, size: nat, memory: nat) returns (ret: int)
      requires Valid() && T().Is(i) && size < U64 && memory <= MEMORY
      modifies this
      ensures ret == TruncateResult(old(inodes[i]), size, old(fsBlocks), maxBlocks, memory)
      ensures T() == if ret == 0 && size != old(inodes[i].size) then old(T()).Resized(i, size) else old(T())
      ensures Valid() <==> (old(Here(inodes[i])) ==> size < old(inodes[i].size) + SIGNED64)
      ensures ret == 0 && old(inodes[i].size) < size < old(inodes[i].size) + SIGNED64 && old(Here(inodes[i])) ==>
                fsBlocks <= maxBlocks
    {
      hide Tables.Ok, Tables.OpenedOn, Int64, ToBlocks;
      var n := inodes[i];
      if n.kind != Reg {
        return EINVAL;
      }
      BuffersOk(T(), multiset{}, NOTHING, i);
      var diff := Int64(size - n.size);
      Difference(size, n.size);
      if diff == 0 {
        return 0;
      }
      var diffBlocks := ToBlocks(size) - ToBlocks(n.size);
      match n.state {
        case Loading(_) =>
          return EIO;
        case Unloaded =>
          NotOpened(T(), multiset{}, NOTHING, i);
          SetFile(i, size, 0, if size == 0 then Local else Unloaded);
        case _ =>
          var room := n.room;
          if diff > 0 {
            if fsBlocks + diffBlocks > maxBlocks {
              return ENOSPC;
            }
            if size > room {
              room := room * 5 / 4;
              if size > room {
                room := size;
              }
              if room > memory {
                return ENOSPC;
              }
            }
          } else {
            room := room * 4 / 5;
            if size <= room {
              if room > memory {
                return ENOSPC;
              }
            } else {
              room := n.room;
            }
          }
          ghost var was := T();
          if size < n.size + SIGNED64 { FileKeeps(was, multiset{}, NOTHING, i, size, room, Local); }
          PutFile(i, size, room, Local);
          if size >= n.size + SIGNED64 { TooLarge(T(), i); }
      }
      ret := 0;
    }

    /** fs_write: the file grows if need be. The end of what is written is an unsigned word, and so is the count that is
        copied; `copy` tells whether anything is copied, and whether it stays inside the buffer. */
    method Write(f: nat, offset: nat, count: int, memory: nat) returns (ret: int, copy: Copy)
      requires Valid() && IsHandle(f) && offset < U64 && IsInt32(count) && memory <= MEMORY
      modifies this
      ensures entries == old(entries) && handles == old(handles)
      ensures ret == if !old(handles[f].isOpened) then EPROTO else if !old(Writes(f)) then EIO
                     else if count == 0 || !copy.Nothing? then count
                     else WriteError(old(FileOf(f)), End(offset, count), old(fsBlocks), maxBlocks, memory)
      ensures copy.Nothing? <==>
                !(old(Writes(f)) && count != 0
                  && WriteError(old(FileOf(f)), End(offset, count), old(fsBlocks), maxBlocks, memory) == 0)
      ensures !copy.Nothing? ==> (copy.Inside? <==> 0 < count && offset + count < old(FileOf(f)).size + SIGNED64)
      ensures if copy.Nothing? then T() == old(T())
              else FileOf(f).state == Local && FileOf(f).size == Max(old(FileOf(f)).size, End(offset, count))
      ensures Valid() <==> (old(Writes(f)) && count != 0 ==> End(offset, count) < old(FileOf(f)).size + SIGNED64)
    {
      hide Tables.Ok, Tables.OpenedOn, ToBlocks, End, TruncateResult, Inode.Room, Tables.File, Tables.Resized;
      HandleOk(T(), multiset{}, NOTHING, f);
      var i := handles[f].ino;
      if !handles[f].isOpened {
        return EPROTO, Nothing;
      }
      if inodes[i].kind != Reg {
        return EIO, Nothing;
      }
      if !handles[f].writable {
        return EIO, Nothing;
      }
      if count == 0 {
        return 0, Nothing;
      }
      OpenedHasContents(T(), multiset{}, NOTHING, f);
      BuffersOk(T(), multiset{}, NOTHING, i);
      var end := End(offset, count);
      CopyInside(inodes[i], offset, count);
      if end > inodes[i].size {
        ResizedFile(T(), i, end);
        ret := Truncate(i, end, memory);
        if ret != 0 {
          return ret, Nothing;
        }
      } else if inodes[i].state == Loaded {
        FileIs(T(), i, inodes[i].size, inodes[i].room, Local);
        SetFile(i, inodes[i].size, inodes[i].room, Local);
      }
      ret := count;
      copy := if 0 <= count && offset + count <= inodes[i].room then Inside else Outside;
    }

    /** The file of a handle. */
    function FileOf(f: nat): Inode
      reads this
    {
      if f < |handles| && handles[f].ino < |inodes| then inodes[handles[f].ino]
      else Inode(false, Reg, 0, 0, 0, 0, Local)
    }

    /** The handle is open for writing on a file. */
    predicate Writes(f: nat)
      reads this
    {
      f < |handles| && handles[f].isOpened && FileOf(f).kind == Reg && handles[f].writable
    }

    /** fs_preload_files: the files of the list that are not loaded, and for which there is memory, begin to be. */
    method Preload(files: seq<nat>, memory: nat)
      requires Valid() && memory <= MEMORY
      modifies this
      ensures Valid() && entries == old(entries) && handles == old(handles)
      ensures Preloaded(old(inodes), inodes, files, memory)
    {
      hide Tables.Ok, Tables.OpenedOn, Preloaded, Trimmed;
      var k := 0;
      PreloadedNone(inodes, memory);
      assert files[..0] == [];
      while k < |files|
        invariant Valid() && entries == old(entries) && handles == old(handles)
        invariant k <= |files| && Preloaded(old(inodes), inodes, files[..k], memory)
      {
        var i := files[k];
        ghost var mid := inodes;
        if i < |inodes| && inodes[i].live && inodes[i].kind == Reg && inodes[i].state == Unloaded {
          var ret := OpenWget(i, None, memory);
          PreloadedMore(old(inodes), mid, inodes, files, k, memory);
        } else {
          PreloadedSame(old(inodes), mid, files, k, memory);
        }
        k := k + 1;
      }
      assert files[..k] == files;
    }

    /** The handle is open. */
    method DoOpen(f: nat)
      requires Valid() && IsHandle(f) && handles[f].ino < |inodes|
      requires inodes[handles[f].ino].kind == Reg ==>
                 inodes[handles[f].ino].state == Local || inodes[handles[f].ino].state == Loaded
      modifies this
      ensures Valid() && entries == old(entries) && inodes == old(inodes)
      ensures handles == old(handles)[f := old(handles[f]).(isOpened := true)]
    {
      hide Tables.Ok;
      MarkKeeps(T(), multiset{}, NOTHING, f, true, handles[f].writable);
      handles := handles[f := handles[f].(isOpened := true)];
    }

    /** The handle waits for a load that no other handle waits for. */
    method WaitFor(f: nat, i: nat) returns (ret: int)
      requires Valid() && T().Is(i) && inodes[i].state.Loading? && IsHandle(f) && handles[f].ino == i
      modifies this
      ensures Valid() && entries == old(entries) && handles == old(handles) && |inodes| == |old(inodes)|
      ensures ret == if old(inodes[i].state.waiting).Some? then EIO else 1
      ensures ret == 1 ==> inodes[i].state == Loading(Some(f))
    {
      hide Tables.Ok, Tables.OpenedOn;
      if inodes[i].state.waiting.Some? {
        return EIO;
      }
      OnlyFilesLoad(T(), multiset{}, NOTHING, i);
      NotOpened(T(), multiset{}, NOTHING, i);
      BuffersOk(T(), multiset{}, NOTHING, i);
      SetFile(i, inodes[i].size, inodes[i].room, Loading(Some(f)));
      ret := 1;
    }

    /** fs_open: 0 if the handle is open now, 1 if it will be when the file is loaded. */
    method Open(f: nat, directory: bool, truncate: bool, writable: bool, preload: seq<nat>, memory: nat)
      returns (ret: int)
      requires Valid() && IsHandle(f) && memory <= MEMORY
      modifies this
      ensures Valid() && entries == old(entries) && old(handles[f].ino < |inodes|)
      ensures ret == OpenResult(old(inodes[handles[f].ino]), directory, truncate, writable, memory)
      ensures handles == old(handles)[f := Handle(true, old(handles[f].ino), ret == 0,
                                                  if ret == ENOTDIR || ret == EINVAL then old(handles[f].writable)
                                                  else writable)]
      ensures ret == 1 ==> handles[f].ino < |inodes| && inodes[handles[f].ino].state == Loading(Some(f))
      ensures ret == 0 && old(inodes[handles[f].ino].kind) == Reg ==>
                handles[f].ino < |inodes| && Here(inodes[handles[f].ino])
    {
      hide Tables.Ok, Tables.OpenedOn;
      HandleOk(T(), multiset{}, NOTHING, f);
      var n := handles[f].ino;
      ghost var was := inodes[n];
      Close(f);
      if directory && inodes[n].kind != Dir {
        return ENOTDIR;
      }
      if !directory && inodes[n].kind != Reg && inodes[n].kind != Dir {
        return EINVAL;
      }
      SetFlags(f, writable);
      if inodes[n].kind == Reg {
        BuffersOk(T(), multiset{}, NOTHING, n);
        if truncate && writable {
          var err := Truncate(n, 0, memory);
        }
        ret := OpenFile(f, n, preload, memory);
      } else {
        DoOpen(f);
        ret := 0;
      }
    }

    method SetFlags(f: nat, writable: bool)
      requires Valid() && IsHandle(f) && !handles[f].isOpened
      modifies this
      ensures Valid() && entries == old(entries) && inodes == old(inodes)
      ensures handles == old(handles)[f := old(handles[f]).(writable := writable)]
    {
      hide Tables.Ok;
      HandleOk(T(), multiset{}, NOTHING, f);
      MarkKeeps(T(), multiset{}, NOTHING, f, false, writable);
      handles := handles[f := handles[f].(writable := writable)];
    }

    method OpenFile(f: nat, n: nat, preload: seq<nat>, memory: nat) returns (ret: int)
      requires Valid() && IsHandle(f) && handles[f].ino == n && T().Is(n) && inodes[n].kind == Reg && memory <= MEMORY
      requires !handles[f].isOpened
      modifies this
      ensures Valid() && entries == old(entries) && |inodes| == |old(inodes)|
      ensures ret == match old(inodes[n].state)
                     case Unloaded => if old(inodes[n].size) <= memory then 1 else EIO
                     case Loading(waiting) => if waiting.Some? then EIO else 1
                     case _ => 0
      ensures handles == old(handles)[f := old(handles[f]).(isOpened := ret == 0)]
      ensures ret == 1 ==> inodes[n].state == Loading(Some(f))
      ensures ret == 0 ==> inodes[n] == old(inodes[n])
    {
      hide Tables.Ok, Tables.OpenedOn;
      match inodes[n].state {
        case Unloaded =>
          Preload(preload, memory);
          if inodes[n].state.Loading? {
            ret := WaitFor(f, n);
          } else {
            var err := OpenWget(n, Some(f), memory);
            ret := if err != 0 then err else 1;
          }
        case Loading(_) =>
          ret := WaitFor(f, n);
        case Local =>
          DoOpen(f);
          ret := 0;
        case Loaded =>
          ListOk(T(), multiset{}, NOTHING);
          FrontKeeps(T(), multiset{}, NOTHING, n);
          cacheList := [n] + Minus(cacheList, n);
          DoOpen(f);
          ret := 0;
      }
    }
  }

  /** What fs_open answers. */
  function OpenResult(n: Inode, directory: bool, truncate: bool, writable: bool, memory: nat): int {
    if directory && n.kind != Dir then ENOTDIR
    else if !directory && n.kind != Reg && n.kind != Dir then EINVAL
    else if n.kind == Dir then 0
    else
      match n.state
      case Unloaded => if truncate && writable && n.size != 0 then 0 else if n.size <= memory then 1 else EIO
      case Loading(waiting) => if waiting.Some? then EIO else 1
      case _ => 0
  }

  /** A file whose load has begun. */
  function Loads(n: Inode, waiting: Option<nat>): Inode {
    n.(room := n.size, state := Loading(waiting))
  }

  /** What becomes of a file while others, and itself if it is asked for, begin to be loaded. */
  predicate PreloadedOne(n: Inode, m: Inode, asked: bool, memory: nat) {
    var starts := n.live && n.kind == Reg && n.size <= memory && asked;
    if n.state == Unloaded then m == if starts then Loads(n, None) else n
    else m == n || (n.openCount == 0 && Cached(n) && (m == Dropped(n) || (starts && m == Loads(n, None))))
  }

  ghost predicate Preloaded(ns: seq<Inode>, ms: seq<Inode>, files: seq<nat>, memory: nat) {
    |ns| == |ms| && forall i :: 0 <= i < |ns| ==> PreloadedOne(ns[i], ms[i], i in files, memory)
  }

  lemma PreloadedNone(ns: seq<Inode>, memory: nat)
    ensures Preloaded(ns, ns, [], memory)
  {
  }

  lemma PreloadedSame(was: seq<Inode>, mid: seq<Inode>, files: seq<nat>, k: nat, memory: nat)
    requires k < |files| && Preloaded(was, mid, files[..k], memory)
    requires var i := files[k]; !(i < |mid| && mid[i].live && mid[i].kind == Reg && mid[i].state == Unloaded)
    ensures Preloaded(was, mid, files[..k + 1], memory)
  {
    assert files[..k + 1] == files[..k] + [files[k]];
  }

  lemma PreloadedMore(was: seq<Inode>, mid: seq<Inode>, ns: seq<Inode>, files: seq<nat>, k: nat, memory: nat)
    requires k < |files| && Preloaded(was, mid, files[..k], memory) && |ns| == |mid| && files[k] < |mid|
    requires var i := files[k]; mid[i].live && mid[i].kind == Reg && mid[i].state == Unloaded
    requires var i := files[k];
             ns[i] == (if mid[i].size <= memory then Loads(mid[i], None) else mid[i]) && Trimmed(mid, ns[i := mid[i]])
    ensures Preloaded(was, ns, files[..k + 1], memory)
  {
    var i := files[k];
    assert files[..k + 1] == files[..k] + [i];
    forall j | 0 <= j < |was| ensures PreloadedOne(was[j], ns[j], j in files[..k + 1], memory) {
      assert PreloadedOne(was[j], mid[j], j in files[..k], memory);
      if j != i { assert ns[i := mid[i]][j] == ns[j]; }
    }
  }

  /** The files of a list that have handles. */
  function Busy(list: seq<nat>, ns: seq<Inode>): seq<nat> {
    if list == [] then []
    else (if list[0] < |ns| && ns[list[0]].openCount == 0 then [] else [list[0]]) + Busy(list[1..], ns)
  }

  /** A file that has left the cache. */
  function Dropped(n: Inode): Inode { n.(room := 0, state := Unloaded) }

  /** The files of a list that have no handles have left the cache. */
  function AfterTrim(ns: seq<Inode>, list: seq<nat>): seq<Inode> {
    seq(|ns|, i requires 0 <= i < |ns| => if i in list && ns[i].openCount == 0 then Dropped(ns[i]) else ns[i])
  }

  lemma CacheListOk(t: Tables)
    requires t.Ok(multiset{}, NOTHING)
    ensures CacheList(t.list, t.ns)
  {
    ListOk(t, multiset{}, NOTHING);
    hide Tables.Ok;
  }

  lemma TrimStart(t: Tables)
    requires t.Ok(multiset{}, NOTHING)
    ensures t.list == t.list[..|t.list|] + Busy(t.list[|t.list|..], t.ns) && t.ns == AfterTrim(t.ns, t.list[|t.list|..])
    ensures Trimmed(t.ns, t.ns)
  {
    hide Tables.Ok;
  }

  /** The cache as it was: each file once. */
  predicate CacheList(list: seq<nat>, ns: seq<Inode>) {
    NoDup(list) && forall j :: 0 <= j < |list| ==> list[j] < |ns| && Cached(ns[list[j]])
  }

  /** The next file from the back. */
  lemma TrimAt(list: seq<nat>, ns: seq<Inode>, k: nat, now: seq<nat>, ms: seq<Inode>)
    requires k < |list| && CacheList(list, ns)
    requires now == list[..k + 1] + Busy(list[k + 1..], ns) && ms == AfterTrim(ns, list[k + 1..])
    ensures now[k] == list[k] < |ms| == |ns| && ms[list[k]] == ns[list[k]]
    ensures ns[list[k]].openCount == 0 ==>
              && Without(now, k) == list[..k] + Busy(list[k..], ns)
              && ms[list[k] := Dropped(ns[list[k]])] == AfterTrim(ns, list[k..])
    ensures ns[list[k]].openCount != 0 ==> now == list[..k] + Busy(list[k..], ns) && ms == AfterTrim(ns, list[k..])
  {
    hide *;
    ListAt(list, ns, k);
    BusyAt(list, ns, k);
    AfterTrimAt(ns, list[k], list[k + 1..]);
    PrefixAt(list, k, Busy(list[k + 1..], ns));
  }

  lemma ListAt(list: seq<nat>, ns: seq<Inode>, k: nat)
    requires k < |list| && CacheList(list, ns)
    ensures list[k] < |ns| && list[k] !in list[k + 1..] && list[k..] == [list[k]] + list[k + 1..]
  {
  }

  lemma BusyAt(list: seq<nat>, ns: seq<Inode>, k: nat)
    requires k < |list| && list[k] < |ns|
    ensures Busy(list[k..], ns) == (if ns[list[k]].openCount == 0 then [] else [list[k]]) + Busy(list[k + 1..], ns)
  {
    assert list[k..][1..] == list[k + 1..];
  }

  lemma AfterTrimAt(ns: seq<Inode>, i: nat, rest: seq<nat>)
    requires i < |ns| && i !in rest
    ensures |AfterTrim(ns, rest)| == |ns| && AfterTrim(ns, rest)[i] == ns[i]
    ensures AfterTrim(ns, [i] + rest) ==
            if ns[i].openCount == 0 then AfterTrim(ns, rest)[i := Dropped(ns[i])] else AfterTrim(ns, rest)
  {
  }

  lemma PrefixAt(list: seq<nat>, k: nat, busy: seq<nat>)
    requires k < |list|
    ensures var now := list[..k + 1] + busy;
            now[k] == list[k] && Without(now, k) == list[..k] + ([] + busy) && now == list[..k] + ([list[k]] + busy)
  {
  }

  lemma TrimmedAll(ns: seq<Inode>, list: seq<nat>, k: nat)
    requires k <= |list| && CacheList(list, ns)
    ensures Trimmed(ns, AfterTrim(ns, list[k..]))
  {
    hide NoDup;
  }

  /** The handle that waits for a load is open when it is done. */
  function Opened(hs: seq<Handle>, s: State): seq<Handle> {
    if s.Loading? && s.waiting.Some? && s.waiting.value < |hs|
      then hs[s.waiting.value := hs[s.waiting.value].(isOpened := true)]
    else hs
  }

  /** Files without handles may have left the cache. */
  ghost predicate Trimmed(ns: seq<Inode>, ms: seq<Inode>) {
    |ns| == |ms| && forall i :: 0 <= i < |ns| ==>
      ms[i] == ns[i] || (ns[i].openCount == 0 && Cached(ns[i]) && ms[i] == Dropped(ns[i]))
  }

  /** A handle that is open on a file sees contents that are there. */
  lemma OpenedHasContents(t: Tables, owed: multiset<nat>, ex: int, f: nat)
    requires t.Ok(owed, ex) && f < |t.hs| && t.hs[f].live && t.hs[f].isOpened
    ensures t.hs[f].ino < |t.ns|
    ensures t.ns[t.hs[f].ino].kind == Reg ==> t.ns[t.hs[f].ino].state == Local || t.ns[t.hs[f].ino].state == Loaded
  {
    hide Refs, Lives, Dirs, Hierarchy, CacheOk, SumBlocks, Opens, Buffers;
  }

  /** An empty file without a buffer, as fs_net_set_url wants it. */
  predicate Plain(n: Inode) { n.kind == Reg && n.state == Local && n.room == 0 }

  /** The contents of the file are there. */
  predicate Here(n: Inode) { n.kind == Reg && (n.state == Local || n.state == Loaded) }

  lemma Difference(size: nat, was: nat)
    requires size < U64 && was < U64
    ensures Int64(size - was) == 0 <==> size == was
    ensures was <= MEMORY ==> (Int64(size - was) > 0 <==> was < size < was + SIGNED64)
  {
  }

  /** The end of a write, as an unsigned word. */
  function End(offset: nat, count: int): (e: nat)
    ensures e < U64
  {
    (offset + count) % U64
  }

  /** What fs_truncate answers. */
  function TruncateResult(n: Inode, size: nat, blocks: int, maxBlocks: int, memory: nat): int {
    if n.kind != Reg then EINVAL
    else if size == n.size then 0
    else if n.state.Loading? then EIO
    else if n.state == Unloaded then 0
    else if n.size < size < n.size + SIGNED64 && blocks + ToBlocks(size) - ToBlocks(n.size) > maxBlocks then ENOSPC
    else if n.Room(size) != n.room && n.Room(size) > memory then ENOSPC
    else 0
  }

  /** On a full disk a file grows within its last block and no further. */
  lemma FullDisk(n: Inode, size: nat, maxBlocks: int, memory: nat)
    requires n.kind == Reg && (n.state == Local || n.state == Loaded)
    requires n.size < size < n.size + SIGNED64 && size < U64 - 4095
    ensures (size - 1) / 4096 > (n.size - 1) / 4096 ==> TruncateResult(n, size, maxBlocks, maxBlocks, memory) == ENOSPC
    ensures (size - 1) / 4096 == (n.size - 1) / 4096 && (n.Room(size) == n.room || n.Room(size) <= memory) ==>
              TruncateResult(n, size, maxBlocks, maxBlocks, memory) == 0
  {
    BlocksHold(size);
    BlocksHold(n.size);
    hide ToBlocks;
  }

  datatype Copy = Nothing | Inside | Outside

  /** What fs_write answers before it copies. */
  function WriteError(n: Inode, end: nat, blocks: int, maxBlocks: int, memory: nat): int {
    if end <= n.size then 0 else TruncateResult(n, end, blocks, maxBlocks, memory)
  }

  /** Where the copy goes, once the file has its size. */
  lemma CopyInside(n: Inode, offset: nat, count: int)
    requires offset < U64 && IsInt32(count) && count != 0 && n.size <= n.room <= MEMORY
    ensures var end := End(offset, count);
            var room := if end <= n.size then n.room else n.Room(end);
            0 <= count && offset + count <= room <==> 0 < count && offset + count < n.size + SIGNED64
  {
    EndIs(offset, count);
    hide End;
  }

  lemma EndIs(offset: nat, count: int)
    requires offset < U64 && IsInt32(count)
    ensures 0 <= offset + count < U64 ==> End(offset, count) == offset + count
    ensures offset + count >= U64 ==> End(offset, count) == offset + count - U64
  {
  }

  lemma ResizedFile(t: Tables, i: nat, size: nat)
    requires i < |t.ns| && Here(t.ns[i])
    ensures var u := t.Resized(i, size);
            u.ns == t.ns[i := t.ns[i].(size := size, room := t.ns[i].Room(size), state := Local)]
            && u.es == t.es && u.hs == t.hs
  {
  }

  lemma FileIs(t: Tables, i: nat, size: nat, room: nat, state: State)
    requires i < |t.ns|
    ensures var u := t.File(i, size, room, state);
            u.ns == t.ns[i := t.ns[i].(size := size, room := room, state := state)] && u.es == t.es && u.hs == t.hs
  {
  }

  /** The new size does not fit the buffer. */
  lemma TooLarge(t: Tables, i: nat)
    requires t.Is(i) && t.ns[i].kind == Reg && t.ns[i].state == Local && t.ns[i].size > t.ns[i].room
    ensures !t.Ok(multiset{}, NOTHING)
  {
    if t.Ok(multiset{}, NOTHING) { BuffersOk(t, multiset{}, NOTHING, i); }
    hide Tables.Ok;
  }

  function Max(a: int, b: int): int { if a < b then b else a }

  /** A handle is left open on contents that are not there. */
  lemma UnloadedUnderHandle(was: Tables, t: Tables, i: nat)
    requires was.OpenedOn(i) && t.hs == was.hs && i < |t.ns| && t.ns[i].kind == Reg && t.ns[i].state == Unloaded
    ensures !t.Ok(multiset{}, NOTHING)
  {
    var f :| 0 <= f < |t.hs| && t.hs[f].live && t.hs[f].isOpened && t.hs[f].ino == i;
    if t.Ok(multiset{}, NOTHING) { OpenedHasContents(t, multiset{}, NOTHING, f); }
    hide Tables.Ok;
  }

  /** The tables when a handle takes its inode with it. */
  function Gone(t: Tables, f: nat): Tables
    requires f < |t.hs| && t.hs[f].ino < |t.ns| && (Cached(t.ns[t.hs[f].ino]) ==> t.hs[f].ino in t.list)
  {
    t.Unhold(f).Freed(t.hs[f].ino)
  }

  lemma CountsAre(t: Tables, owed: multiset<nat>, ex: int, i: nat)
    requires t.Ok(owed, ex) && t.Is(i)
    ensures t.ns[i].refcount >= 0 && (Cached(t.ns[i]) ==> i in t.list)
  {
    hide Opens, Lives, Dirs, Hierarchy, Contents, Buffers, SumBlocks;
  }

  /** A load still waits for a handle that is gone. */
  lemma StillWaiting(t: Tables, f: nat)
    requires f < |t.hs| && t.hs[f].ino < |t.ns| && !t.NoneWaits(f)
    ensures !t.Unhold(f).Ok(multiset{}, NOTHING)
  {
    var i :| 0 <= i < |t.ns| && t.ns[i].live && t.ns[i].state.Loading? && t.ns[i].state.waiting == Some(f);
    assert !Waits(t.Unhold(f).ns[i].state, t.Unhold(f).hs, i);
    hide Refs, Opens, Lives, Dirs, Hierarchy, CacheOk, Buffers, SumBlocks;
    assert t.Unhold(f).ns[i].live;
  }

  /** The load goes with its file. */
  lemma GoneKeeps(t: Tables, f: nat)
    requires t.Ok(multiset{}, NOTHING) && f < |t.hs| && t.hs[f].live && t.hs[f].ino < |t.ns| && Alone(t.ns[t.hs[f].ino])
    requires !t.NoneWaits(f)
    ensures Cached(t.ns[t.hs[f].ino]) ==> t.hs[f].ino in t.list
    ensures Gone(t, f).Ok(multiset{}, NOTHING)
  {
    hide Tables.Ok, Tables.NoneWaits, Tables.OpenedOn, FreeOk;
    var i := t.hs[f].ino;
    HandleOk(t, multiset{}, NOTHING, f);
    OnlyOwnWaits(t, f);
    OnlyFilesLoad(t, multiset{}, NOTHING, i);
    NotOpened(t, multiset{}, NOTHING, i);
    BuffersOk(t, multiset{}, NOTHING, i);
    var n := t.ns[i];
    FileKeeps(t, multiset{}, NOTHING, i, n.size, 0, Unloaded);
    var u := t.File(i, n.size, 0, Unloaded);
    UnloadedNoneWaits(t, f);
    UnholdStep(u, multiset{}, NOTHING, f);
    FreedKeeps(u.Unhold(f), multiset{}, NOTHING, i);
    DeadFile(Gone(u, f), i, n.room, n.state);
    GoneEither(t, f);
  }

  lemma UnloadedNoneWaits(t: Tables, f: nat)
    requires f < |t.hs| && t.hs[f].ino < |t.ns|
    requires forall j :: 0 <= j < |t.ns| && t.ns[j].live && t.ns[j].state == Loading(Some(f)) ==> j == t.hs[f].ino
    ensures t.File(t.hs[f].ino, t.ns[t.hs[f].ino].size, 0, Unloaded).NoneWaits(f)
  {
  }

  /** A file that is freed, whether its load is given up first or not. */
  lemma GoneEither(t: Tables, f: nat)
    requires f < |t.hs| && t.hs[f].ino < |t.ns| && t.ns[t.hs[f].ino].state.Loading? && t.ns[t.hs[f].ino].kind == Reg
    ensures var i := t.hs[f].ino; var n := t.ns[i];
            var v := Gone(t.File(i, n.size, 0, Unloaded), f);
            Gone(t, f) == v.(ns := v.ns[i := v.ns[i].(room := n.room, state := n.state)])
  {
    hide ToBlocks;
  }

  lemma OnlyOwnWaits(t: Tables, f: nat)
    requires t.Ok(multiset{}, NOTHING) && f < |t.hs| && !t.NoneWaits(f)
    ensures forall j :: 0 <= j < |t.ns| && t.ns[j].live && t.ns[j].state == Loading(Some(f)) ==> j == t.hs[f].ino
    ensures t.hs[f].ino < |t.ns| && t.ns[t.hs[f].ino].state.Loading?
  {
    hide Refs, Opens, Lives, Dirs, Hierarchy, CacheOk, Buffers, SumBlocks;
  }

  /** What a freed file was does not matter. */
  lemma DeadFile(t: Tables, i: nat, room: nat, state: State)
    requires t.Ok(multiset{}, NOTHING) && i < |t.ns| && !t.ns[i].live && t.ns[i].kind == Reg
    ensures t.(ns := t.ns[i := t.ns[i].(room := room, state := state)]).Ok(multiset{}, NOTHING)
  {
    NoHandleOn(t, i);
    hide Refs, Opens, Lives, Dirs, Hierarchy, CacheOk, Contents, Buffers, SumBlocks, BodyOk, CountsOk;
    OkIs(t, multiset{}, NOTHING);
    DeadCounts(t, i, room, state);
    DeadBody(t, i, room, state);
    OkIs(t.(ns := t.ns[i := t.ns[i].(room := room, state := state)]), multiset{}, NOTHING);
  }

  lemma DeadCounts(t: Tables, i: nat, room: nat, state: State)
    requires CountsOk(t, multiset{}) && i < |t.ns|
    ensures CountsOk(t.(ns := t.ns[i := t.ns[i].(room := room, state := state)]), multiset{})
  {
    hide Named, Holds;
  }

  lemma DeadBody(t: Tables, i: nat, room: nat, state: State)
    requires BodyOk(t, NOTHING) && i < |t.ns| && !t.ns[i].live && t.ns[i].kind == Reg
    requires forall h :: 0 <= h < |t.hs| && t.hs[h].live ==> t.hs[h].ino != i
    ensures BodyOk(t.(ns := t.ns[i := t.ns[i].(room := room, state := state)]), NOTHING)
  {
    var ns := t.ns[i := t.ns[i].(room := room, state := state)];
    SumUpdate(t.ns, i, ns[i]);
    DeadCache(t, i, room, state);
    DeadContents(t, i, room, state);
    assert Dirs(ns, t.es) by { hide DirSize; }
    hide Dirs, Hierarchy, CacheOk, Contents, Buffers, SumBlocks;
  }

  lemma DeadCache(t: Tables, i: nat, room: nat, state: State)
    requires CacheOk(t.ns, t.list, t.cached) && i < |t.ns| && !t.ns[i].live
    ensures CacheOk(t.ns[i := t.ns[i].(room := room, state := state)], t.list, t.cached)
  {
    SumSizesSame(t.ns, t.ns[i := t.ns[i].(room := room, state := state)], t.list);
    hide SumSizes;
  }

  lemma DeadContents(t: Tables, i: nat, room: nat, state: State)
    requires Contents(t.ns, t.hs) && Buffers(t.ns) && i < |t.ns| && !t.ns[i].live && t.ns[i].kind == Reg
    requires forall h :: 0 <= h < |t.hs| && t.hs[h].live ==> t.hs[h].ino != i
    ensures var ns := t.ns[i := t.ns[i].(room := room, state := state)]; Contents(ns, t.hs) && Buffers(ns)
  {
  }

  lemma NoHandleOn(t: Tables, i: nat)
    requires t.Ok(multiset{}, NOTHING) && i < |t.ns| && !t.ns[i].live
    ensures forall h :: 0 <= h < |t.hs| && t.hs[h].live ==> t.hs[h].ino != i
  {
    if h :| 0 <= h < |t.hs| && t.hs[h].live && t.hs[h].ino == i { HandleOk(t, multiset{}, NOTHING, h); }
    hide Tables.Ok;
  }

  /** An inode that a single handle keeps. */
  predicate Alone(n: Inode) { n.refcount == 0 && n.openCount == 1 }

  lemma NothingFound(t: Tables, owed: multiset<nat>, ex: int, d: nat, name: string)
    requires t.Ok(owed, ex) && d < |t.ns| && (t.ns[d].kind != Dir || !HasName(t.es, d, name))
    ensures !HasName(t.es, d, name)
  {
    if t.ns[d].kind != Dir { FileIsEmpty(t, owed, ex, d); }
    hide Tables.Ok;
  }

  lemma UniqueNames(t: Tables, owed: multiset<nat>, ex: int)
    requires t.Ok(owed, ex)
    ensures Unique(t.es)
  {
    hide Refs, Opens, Lives, Dirs, AllLinked, Unique, CacheOk, Contents, Buffers, SumBlocks;
  }

  lemma EntriesBelow(t: Tables, owed: multiset<nat>, ex: int)
    requires t.Ok(owed, ex)
    ensures forall k :: 0 <= k < |t.es| ==> t.es[k].dir < |t.ns|
  {
    hide Opens, Lives, Dirs, Hierarchy, CacheOk, Contents, Buffers, SumBlocks;
  }

  /** The directory of an entry is not unlinked. */
  lemma InLinked(t: Tables, owed: multiset<nat>, ex: int, k: nat)
    requires t.Ok(owed, ex) && k < |t.es| && t.es[k].dir != ex
    ensures Linked(t.es, t.es[k].dir)
  {
    hide Refs, Opens, Lives, Dirs, Unique, Linked, CacheOk, Contents, Buffers, SumBlocks;
  }

  lemma NameAt(es: seq<Entry>, k: nat)
    requires k < |es|
    ensures HasName(es, es[k].dir, es[k].name)
  {
  }

  lemma LastIn(es: seq<Entry>, d: nat)
    requires es != [] && es[|es| - 1].dir == d
    ensures exists k :: 0 <= k < |es| && es[k].dir == d
  {
  }

  /** The names in a directory that is new, and in the one it is made in. */
  lemma NewNames(es: seq<Entry>, n1: nat, n: nat, name: string)
    requires (forall k :: 0 <= k < |es| ==> es[k].dir < n1) && n < n1 && !HasName(es, n, name)
    ensures !HasName(es, n1, ".") && !HasName(es + [Entry(n1, ".", n1)], n1, "..")
    ensures !HasName(es + [Entry(n1, ".", n1)] + [Entry(n1, "..", n)], n, name)
  {
    var fs, gs := es + [Entry(n1, ".", n1)], es + [Entry(n1, ".", n1)] + [Entry(n1, "..", n)];
    assert forall k :: 0 <= k < |es| ==> fs[k] == es[k] && gs[k] == es[k];
    assert fs[|es|] == Entry(n1, ".", n1) == gs[|es|] && gs[|es| + 1] == Entry(n1, "..", n);
  }

  /** The new directory does not link the one it is made in. */
  lemma NewLinked(es: seq<Entry>, n1: nat, n: nat, name: string)
    requires n != n1
    ensures var fs := es + [Entry(n1, ".", n1)] + [Entry(n1, "..", n)] + [Entry(n, name, n1)];
            Linked(fs, n) <==> Linked(es, n)
  {
    var fs := es + [Entry(n1, ".", n1)] + [Entry(n1, "..", n)] + [Entry(n, name, n1)];
    assert forall k :: 0 <= k < |es| ==> fs[k] == es[k];
    assert fs[|es|] == Entry(n1, ".", n1) && fs[|es| + 1] == Entry(n1, "..", n) && fs[|es| + 2] == Entry(n, name, n1);
    if Linked(fs, n) && n != ROOT {
      var k :| 0 <= k < |fs| && fs[k].ino == n && Anchors(fs[k]);
      assert k < |es| && es[k] == fs[k];
    }
  }

  lemma OtherLinked(es: seq<Entry>, e: Entry)
    requires e.ino != e.dir
    ensures Linked(es + [e], e.dir) <==> Linked(es, e.dir)
  {
    LinkedAdded(es, e, e.dir);
    if Linked(es + [e], e.dir) && e.dir != ROOT {
      var k :| 0 <= k < |es + [e]| && (es + [e])[k].ino == e.dir && Anchors((es + [e])[k]);
      assert k < |es| && es[k] == (es + [e])[k];
    }
  }

  lemma WithoutSet(es: seq<Entry>, k: nat)
    requires Unique(es) && k < |es|
    ensures forall x: Entry :: x in Without(es, k) <==> x in es && !IsEntry(x, es[k].dir, es[k].name)
  {
    var fs := Without(es, k);
    forall x: Entry ensures x in fs <==> x in es && !IsEntry(x, es[k].dir, es[k].name) {
      if x in fs {
        var j :| 0 <= j < |fs| && fs[j] == x;
        assert es[if j < k then j else j + 1] == x;
      }
      if x in es && x != es[k] {
        var j :| 0 <= j < |es| && es[j] == x;
        assert fs[if j < k then j else j - 1] == x;
      }
    }
  }

  lemma NameGone(es: seq<Entry>, k: nat)
    requires Unique(es) && k < |es|
    ensures !HasName(Without(es, k), es[k].dir, es[k].name)
  {
  }

  lemma OthersStay(es: seq<Entry>, k: nat)
    requires k < |es|
    ensures forall x: Entry :: x.dir != es[k].dir ==> (x in Without(es, k) <==> x in es)
  {
    assert es == es[..k] + [es[k]] + es[k + 1..];
  }

  /** A moved entry: its old name is gone, its new name is there. */
  lemma RenamedSet(es: seq<Entry>, e: Entry, k: nat)
    requires Unique(es) && k < |es| && !HasName(es, e.dir, e.name)
    ensures forall x: Entry :: x in Without(es + [e], k) <==>
              || x == e || (x in es && !IsEntry(x, es[k].dir, es[k].name) && !IsEntry(x, e.dir, e.name))
  {
    WithoutSet(es, k);
    assert Without(es + [e], k) == Without(es, k) + [e];
    hide Unique;
    assert forall x: Entry :: x in es ==> !IsEntry(x, e.dir, e.name);
  }

  /** The directory it was moved to is linked as before, or by it. */
  lemma RenamedLinked(es: seq<Entry>, e: Entry, k: nat)
    requires k < |es| && e.ino == es[k].ino && !IsDotName(e.name)
    ensures var fs := Without(es + [e], k);
            && (Linked(fs, e.dir) <==> Linked(es, e.dir) || e.ino == e.dir)
            && exists j :: 0 <= j < |fs| && fs[j].dir == e.dir
  {
    var fs := Without(es + [e], k);
    assert fs[|fs| - 1] == e;
    if Linked(es, e.dir) && e.dir != ROOT && e.ino != e.dir {
      var m :| 0 <= m < |es| && es[m].ino == e.dir && Anchors(es[m]);
      assert fs[if m < k then m else m - 1] == es[m];
    }
    if Linked(fs, e.dir) && e.dir != ROOT && e.ino != e.dir {
      var m :| 0 <= m < |fs| && fs[m].ino == e.dir && Anchors(fs[m]);
      assert es[if m < k then m else m + 1] == fs[m];
    }
  }

  ghost predicate SameKinds(ns: seq<Inode>, ms: seq<Inode>) {
    |ns| == |ms| && forall i :: 0 <= i < |ns| ==> ms[i].kind == ns[i].kind
  }

  lemma LinkedNamed(t: Tables, owed: multiset<nat>, ex: int, d: nat)
    requires t.Ok(owed, ex) && Linked(t.es, d)
    ensures d < |t.ns| && t.ns[d].refcount > 0
  {
    if d == ROOT {
      RootNamed(t, owed, ex);
    } else {
      var k :| 0 <= k < |t.es| && t.es[k].ino == d && Anchors(t.es[k]);
      EntryOk(t, owed, ex, k);
      hide Tables.Ok;
    }
  }

  lemma RootLinked(es: seq<Entry>)
    ensures Linked(es, ROOT)
  {
  }

  lemma RootNamed(t: Tables, owed: multiset<nat>, ex: int)
    requires t.Ok(owed, ex)
    ensures t.ns[ROOT].refcount > 0
  {
    hide Opens, Lives, Dirs, Hierarchy, CacheOk, Contents, Buffers, SumBlocks;
  }

  /** Nothing is in a file. */
  lemma FileIsEmpty(t: Tables, owed: multiset<nat>, ex: int, i: nat)
    requires t.Ok(owed, ex) && i < |t.ns| && t.ns[i].kind != Dir
    ensures forall j :: 0 <= j < |t.es| ==> t.es[j].dir != i
  {
    hide Refs, Opens, Lives, Hierarchy, CacheOk, Contents, Buffers, SumBlocks;
  }

  /** The deletion of a file's entry unlinks no directory. */
  lemma StillLinked(es: seq<Entry>, k: nat, d: nat)
    requires k < |es| && es[k].ino != d && Linked(es, d)
    ensures Linked(Without(es, k), d)
  {
    if d != ROOT {
      var m :| 0 <= m < |es| && es[m].ino == d && Anchors(es[m]);
      assert Without(es, k)[if m < k then m else m - 1] == es[m];
    }
  }

  ghost predicate OnlyDots(es: seq<Entry>, d: nat) {
    forall k :: 0 <= k < |es| && es[k].dir == d ==> IsDotName(es[k].name)
  }

  /** The dots of a directory can go when it is emptied. */
  lemma DotCanGo(es: seq<Entry>, k: nat, d: nat)
    requires k < |es| && es[k].dir == d && OnlyDots(es, d)
    ensures CanGo(es, k, d) && OnlyDots(Without(es, k), d)
  {
  }

  lemma EmptyCanGo(es: seq<Entry>, k: nat)
    requires k < |es| && forall j :: 0 <= j < |es| ==> es[j].dir != es[k].ino
    ensures CanGo(es, k, NOTHING)
  {
  }

  /** An entry can go when it was given another name. */
  lemma MovedCanGo(es: seq<Entry>, e: Entry, k: nat, ex: int)
    requires k < |es| && e.ino == es[k].ino && !IsDotName(e.name)
    ensures CanGo(es + [e], k, ex)
  {
    assert (es + [e])[|es|] == e && Anchors(e);
  }

  /** The names lead from one inode to another. */
  ghost predicate Path(es: seq<Entry>, from: nat, names: seq<string>, to: nat)
    decreases |names|
  {
    if names == [] then from == to
    else exists k ::
      && 0 <= k < |es| && es[k].ino == to && es[k].name == names[|names| - 1]
      && Path(es, from, names[..|names| - 1], es[k].dir)
  }

  lemma PathMore(es: seq<Entry>, from: nat, names: seq<string>, count: nat, n: nat, k: nat)
    requires count < |names| && Path(es, from, names[..count], n) && k < |es| && es[k].dir == n &&
             es[k].name == names[count]
    ensures Path(es, from, names[..count + 1], es[k].ino)
  {
    assert names[..count + 1][..count] == names[..count];
  }

  lemma RootOk(t: Tables, owed: multiset<nat>, ex: int)
    requires t.Ok(owed, ex)
    ensures t.Is(ROOT)
  {
    hide Dirs, Hierarchy, CacheOk, Contents, Buffers, SumBlocks, Opens;
    OpenNotNegative(t, ROOT);
  }

  lemma FreeIs(t: Tables, owed: multiset<nat>, ex: int, i: nat)
    requires FreeOk(t, owed, ex, i)
    ensures i < |t.ns| && t.ns[i].live
  {
    hide BodyOk, Refs, Opens;
  }

  lemma EmptyOk(t: Tables)
    requires t == Tables([Inode(true, Dir, 1, 0, 0, 0, Local)], [], [], 0, [], 0)
    ensures t.Ok(multiset{}, NOTHING) && t.IsDir(ROOT)
  {
    hide Hierarchy, Contents, Buffers, Refs, Opens, Lives, Dirs, CacheOk;
    assert SumBlocks([]) == 0;
    assert t.ns[..0] == [];
    EmptyCounts(t);
    EmptyBodies(t);
  }

  lemma EmptyCounts(t: Tables)
    requires t == Tables([Inode(true, Dir, 1, 0, 0, 0, Local)], [], [], 0, [], 0)
    ensures Refs(t.ns, t.es, multiset{}) && Opens(t.ns, t.hs) && Lives(t.ns)
  {
  }

  lemma EmptyBodies(t: Tables)
    requires t == Tables([Inode(true, Dir, 1, 0, 0, 0, Local)], [], [], 0, [], 0)
    ensures Dirs(t.ns, t.es) && Hierarchy(t.es, NOTHING) && CacheOk(t.ns, t.list, t.cached) && Contents(t.ns, t.hs) &&
            Buffers(t.ns)
  {
  }
}
