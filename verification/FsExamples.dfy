/** Runs of the network filesystem in which its counters and buffers stop meaning what they mean (fs_net.c). */
module FsExamples {
  import opened Options
  import opened FsState
  import opened VolumeSteps
  import opened FsNet

  /** A new file system with an empty file, open for writing. */
  method OneFile() returns (fs: FileSystem, f: nat)
    ensures fresh(fs) && fs.Valid() && f == 0 && fs.handles == [Handle(true, 1, true, true)]
    ensures |fs.inodes| == 2 && fs.inodes[1] == Inode(true, Reg, 1, 1, 0, 0, Local)
    ensures |fs.entries| == 3 && fs.entries[2] == Entry(ROOT, "a", 1)
  {
    hide Tables.Ok;
    fs := new FileSystem(1000, 1000);
    f := fs.Attach();
    RootLinked(fs.entries);
    RootNamed(fs.T(), multiset{}, NOTHING);
    assert !HasName(fs.entries, ROOT, "a");
    hide Linked, HasName;
    var ret := fs.Create(f, "a", true);
  }

  /** An address is given to an empty file that is open. */
  method UrlOfOpenFile() returns (fs: FileSystem, ret: int)
    ensures fresh(fs) && ret == 0 && !fs.Valid()
  {
    hide Tables.Ok;
    var f;
    fs, f := OneFile();
    assert fs.T().hs[f] == Handle(true, 1, true, true);
    ret := fs.SetUrl(1, true, 1);
  }

  /** An empty file is extended to 2^63 bytes: there is no error, and no buffer. */
  method TruncateBeyond() returns (fs: FileSystem, ret: int)
    ensures fresh(fs) && ret == 0 && !fs.Valid()
    ensures |fs.inodes| == 2 && fs.inodes[1].size == 0x8000_0000_0000_0000 && fs.inodes[1].room == 0
  {
    hide Tables.Ok;
    var f;
    fs, f := OneFile();
    ResizedFile(fs.T(), 1, 0x8000_0000_0000_0000);
    ret := fs.Truncate(1, 0x8000_0000_0000_0000, 0);
  }

  /** A page is written at the end of the 64-bit range: its end is 0, and the copy is not in the buffer. */
  method WriteBeyond() returns (fs: FileSystem, ret: int, copy: Copy)
    ensures fresh(fs) && ret == 4096 && copy.Outside?
  {
    hide Tables.Ok;
    var f;
    fs, f := OneFile();
    EndIs(0xffff_ffff_ffff_f000, 4096);
    ret, copy := fs.Write(f, 0xffff_ffff_ffff_f000, 4096, 0);
  }

  /** A handle is freed while a load waits for it. */
  method DeleteWaiting() returns (fs: FileSystem)
    ensures fresh(fs) && !fs.Valid()
  {
    hide Tables.Ok;
    var f;
    fs, f := OneFile();
    fs.Close(f);
    assert !fs.T().OpenedOn(1);
    FileIs(fs.T(), 1, 1, 0, Unloaded);
    hide Tables.OpenedOn;
    var ret := fs.SetUrl(1, true, 1);
    ret := fs.Open(f, false, false, false, [], 1);
    HandleOk(fs.T(), multiset{}, NOTHING, f);
    EntryOk(fs.T(), multiset{}, NOTHING, 2);
    assert fs.T().ns[1].state == Loading(Some(f));
    fs.Delete(f);
  }

  /** A directory that is unlinked, but still has a handle. */
  method UnlinkedDirectory() returns (fs: FileSystem, g: nat)
    ensures fresh(fs) && fs.Valid() && fs.IsHandle(g) && fs.handles[g].ino == 1 < |fs.inodes| &&
            fs.inodes[1].kind == Dir
    ensures forall x: Entry :: x in fs.entries ==> x.ino != 1 && x.dir != 1
  {
    hide Tables.Ok;
    var f;
    fs, f, g := OneDirectory();
    ghost var es := fs.entries;
    assert IsEntry(es[4], ROOT, "d");
    NotFull(fs);
    hide FileSystem.FullDirectory, FileSystem.InDirectory, HasName, Linked;
    var ret := fs.UnlinkAt(f, "d");
  }

  method OneDirectory() returns (fs: FileSystem, f: nat, g: nat)
    ensures fresh(fs) && fs.Valid() && fs.IsHandle(f) && fs.IsHandle(g) && |fs.inodes| == 2 && fs.inodes[1].kind == Dir
    ensures fs.handles[f].ino == ROOT && fs.handles[g].ino == 1 && fs.entries == OneDirectoryEntries()
  {
    hide Tables.Ok;
    fs := new FileSystem(1000, 1000);
    f := fs.Attach();
    RootLinked(fs.entries);
    assert !HasName(fs.entries, ROOT, "d");
    hide Linked;
    var ret := fs.Mkdir(f, "d");
    var count;
    count, g := fs.Walk(f, ["d"]);
    OneStep(fs.entries, fs.handles[g].ino, count);
  }

  function OneDirectoryEntries(): seq<Entry> {
    [Entry(0, ".", 0), Entry(0, "..", 0), Entry(1, ".", 1), Entry(1, "..", 0), Entry(0, "d", 1)]
  }

  lemma NotFull(fs: FileSystem)
    requires fs.entries == OneDirectoryEntries()
    ensures !fs.FullDirectory(ROOT, "d")
    ensures forall x: Entry :: fs.InDirectory(x, ROOT, "d") <==> x.dir == 1
  {
    assert IsEntry(fs.entries[4], ROOT, "d");
  }

  /** A directory is made in one that is unlinked. */
  method MkdirInUnlinked() returns (fs: FileSystem, ret: int)
    ensures fresh(fs) && ret == 0 && !fs.Valid()
  {
    hide Tables.Ok;
    var g;
    fs, g := UnlinkedDirectory();
    NoLink(fs.entries);
    assert !HasName(fs.entries, 1, "x");
    hide Linked, HasName;
    ret := fs.Mkdir(g, "x");
  }

  lemma NoLink(es: seq<Entry>)
    requires forall x: Entry :: x in es ==> x.ino != 1
    ensures !Linked(es, 1)
  {
  }

  lemma OneStep(es: seq<Entry>, i: nat, count: nat)
    requires es == OneDirectoryEntries()
    requires count <= 1 && Path(es, ROOT, ["d"][..count], i) && (count < 1 ==> !HasName(es, i, "d"))
    ensures i == 1
  {
    assert IsEntry(es[4], ROOT, "d");
    assert ["d"][..0] == [] && ["d"][..1] == ["d"];
    if count == 1 {
      var k :| 0 <= k < |es| && es[k].ino == i && es[k].name == "d" && Path(es, ROOT, ["d"][..0], es[k].dir);
      assert k == 4;
    }
  }
}
