/** The block device on its queue (virtio.c: virtio_block_recv_request, virtio_block_req_end, virtio_block_req_cb over
    block_net.c): from the bytes of a request in guest memory to the sectors and the status byte in its write buffer. */
module BlockRequests {
  import opened Options
  import opened Widths
  import opened DescChain
  import opened VirtQueue
  import BlockCache
  import opened BlockImage
  import opened BlockNet
  import opened BlockRuns

  const SECTOR: nat := 512
  const HEADER: nat := 16
  const T_IN: nat := 0
  const T_OUT: nat := 1
  const S_OK: bv8 := 0

  // ----- sectors and bytes

  function Bytes(ss: seq<Sector>): seq<bv8> {
    if ss == [] then [] else ss[0] + Bytes(ss[1..])
  }

  /** The whole sectors in front. */
  function Sectors(b: seq<bv8>): (ss: seq<Sector>)
    ensures |ss| == |b| / SECTOR && AllWhole(ss)
  {
    if |b| < SECTOR then [] else [b[..SECTOR]] + Sectors(b[SECTOR..])
  }

  predicate AllWhole(ss: seq<Sector>) {
    forall i :: 0 <= i < |ss| ==> |ss[i]| == SECTOR
  }

  lemma {:induction false} BytesLength(ss: seq<Sector>)
    requires AllWhole(ss)
    ensures |Bytes(ss)| == SECTOR * |ss|
  {
    if ss != [] { BytesLength(ss[1..]); }
  }

  /** The sectors taken from bytes are these bytes, without an incomplete sector at the end. */
  lemma {:induction false} SectorsBack(b: seq<bv8>)
    ensures SECTOR * |Sectors(b)| <= |b| && Bytes(Sectors(b)) == b[..SECTOR * |Sectors(b)|]
  {
    if |b| >= SECTOR {
      SectorsBack(b[SECTOR..]);
      assert Sectors(b)[1..] == Sectors(b[SECTOR..]);
      assert b == b[..SECTOR] + b[SECTOR..];
    }
  }

  /** All sectors of the disk have 512 bytes. */
  ghost predicate Whole(g: Image, cl: Clusters) {
    HasClusters(g, cl) && AllWhole(g.sectors) && forall s: nat :: s < |g.sectors| ==> |At(g, cl, s)| == SECTOR
  }

  lemma ReadWhole(g: Image, cl: Clusters, s: nat, n: nat)
    requires g.Valid() && Whole(g, cl) && s + n <= |g.sectors|
    ensures AllWhole(ReadRun(g, cl, s, n))
  {
    hide At, ReadRun, Image.Valid, HasClusters, Stale;
    var r := ReadRun(g, cl, s, n);
    forall i | 0 <= i < n ensures |r[i]| == SECTOR {
      ReadRunIs(g, cl, s, n, s + i);
      assert r[s + i - s] == r[i];
    }
  }

  lemma AfterWhole(g: Image, cl: Clusters, r: BlockRuns.Request)
    requires g.Valid() && Whole(g, cl) && InRange(g, r) && (r.Write? ==> AllWhole(r.data))
    ensures Whole(g, AfterOne(g, cl, r))
  {
    hide At, Image.Valid, HasClusters, Patched;
    if r.Write? {
      forall s: nat | s < |g.sectors| ensures |At(g, Patched(g, cl, r.start, r.data), s)| == SECTOR {
        PatchedAt(g, cl, r.start, r.data, s);
      }
    }
  }

  // ----- what a chain asks for

  /** What the device reads and writes in the buffers of a chain, and what it asks for; a read buffer without a whole
      header and other types ask for nothing. */
  function Asks(read: seq<bv8>, writeSize: nat): Option<BlockRuns.Request> {
    if |read| < HEADER then None
    else
      var kind, sector := Le(read[..4]), Le(read[8..16]);
      if kind == T_IN && 0 < writeSize then Some(Read(sector, (writeSize - 1) / SECTOR))
      else if kind == T_OUT then Some(Write(sector, Sectors(read[HEADER..])))
      else None
  }

  /** What the source leaves to the guest: a status byte can be stored, and the sectors are there. */
  predicate Proper(g: Image, read: seq<bv8>, writeSize: nat) {
    |read| >= HEADER && Le(read[..4]) <= T_OUT ==>
      0 < writeSize && Asks(read, writeSize).Some? && InRange(g, Asks(read, writeSize).value)
  }

  lemma AsksIs(g: Image, read: seq<bv8>, writeSize: nat)
    requires Proper(g, read, writeSize)
    ensures |read| < HEADER ==> Asks(read, writeSize).None?
    ensures |read| >= HEADER ==>
              var kind, sector := Le(read[0..HEADER][..4]), Le(read[0..HEADER][8..16]);
              var body := if |read| == HEADER then [] else read[HEADER..HEADER + (|read| - HEADER)];
              && (kind == T_IN ==>
                    0 < writeSize && Asks(read, writeSize) == Some(Read(sector, (writeSize - 1) / SECTOR)))
              && (kind == T_OUT ==> 0 < writeSize && Asks(read, writeSize) == Some(Write(sector, Sectors(body))))
              && (kind != T_IN && kind != T_OUT ==> Asks(read, writeSize).None?)
              && (Asks(read, writeSize).Some? ==> InRange(g, Asks(read, writeSize).value))
  {
    hide Le, Sectors, InRange;
    if |read| >= HEADER {
      assert read[0..HEADER][..4] == read[..4] && read[0..HEADER][8..16] == read[8..16];
      assert read[HEADER..HEADER + (|read| - HEADER)] == read[HEADER..];
    }
  }

  /** The chain `ds` from descriptor `i` on is in order, and its write buffer is not the table. */
  ghost predicate Sound(t: Table, ram: seq<bv8>, i: nat, ds: seq<Desc>) {
    && Chain(t, ram, i, ds) && WellFormed(ds) && InRam(Buffer(ds, false), ram) && InRam(Buffer(ds, true), ram)
    && Apart(t, Buffer(ds, true)) && |Buffer(ds, false)| < SIGNED32 && |Buffer(ds, true)| < SIGNED32
  }

  /** The answer in guest memory: for a read, the sectors and at the very end the status; for a write the status in
      front. Nothing else changes. */
  ghost predicate Answered(was: seq<bv8>, now: seq<bv8>, b: seq<nat>, r: BlockRuns.Request, sectors: seq<Sector>) {
    && |now| == |was| && InRam(b, was) && 0 < |b|
    && if r.Write? then now == was[b[0] := S_OK]
       else
         && (forall p: nat :: p < |was| && p !in b ==> now[p] == was[p])
         && (NoneTwice(b) ==> Bytes(sectors) <= Gather(now, b) && Gather(now, b)[|b| - 1] == S_OK)
  }

  lemma ReadAnswered(was: seq<bv8>, now: seq<bv8>, b: seq<nat>, r: BlockRuns.Request, sectors: seq<Sector>,
                     data: seq<bv8>)
    requires InRam(b, was) && 0 < |b| == |data| && now == Scatter(was, b, data) && r.Read?
    requires Bytes(sectors) <= data && data[|b| - 1] == S_OK
    ensures Answered(was, now, b, r, sectors)
  {
    hide Scatter, Bytes, Gather, NoneTwice;
    forall p: nat | p < |was| && p !in b ensures now[p] == was[p] {
      ScatterElsewhere(was, b, data, p);
    }
    if NoneTwice(b) { GatherScattered(was, b, data); }
  }

  /** Of a buffer that is no longer than an int, no part is. */
  lemma {:induction false} NotLong(ds: seq<Desc>, w: bool, offset: nat, count: nat)
    requires |Places(Run(ds, w))| < SIGNED32
    ensures !TooLong(ds, w, offset, count)
    decreases |ds|
  {
    if ds == [] || ds[0].write != w || count == 0 {
    } else {
      assert Run(ds, w)[0] == ds[0] && Run(ds, w)[1..] == Run(ds[1..], w);
      var left := ds[0].len - offset;
      if offset >= ds[0].len {
        NotLong(ds[1..], w, offset - ds[0].len, count);
      } else {
        NotLong(ds[1..], w, 0, if count <= left then 0 else count - left);
      }
    }
  }

  lemma BufferNotLong(ds: seq<Desc>, w: bool, offset: nat, count: nat)
    requires |Buffer(ds, w)| < SIGNED32
    ensures !TooLong(Front(ds, w), w, offset, count)
  {
    hide TooLong, Places, Run, SkipReads;
    NotLong(Front(ds, w), w, offset, count);
  }

  /** VIRTIOBlockDevice */
  class BlockDevice {
    const queue: Queue
    const dev: Device
    var reqInProgress: bool
    /** The request: its type, the first descriptor of its chain, and for a read the buffer that malloc delivered. */
    var isIn: bool
    var descIdx: nat
    var buf: array<Sector>
    var junk: seq<bv8>
    var writeSize: nat
    /** The chain of the request in progress, and what it asks for. */
    ghost var ds: seq<Desc>
    ghost var req: BlockRuns.Request

    constructor (queue: Queue, dev: Device)
      requires queue.Valid() && dev.Valid() && !dev.busy && Whole(dev.g, dev.clusters)
      requires (dev.ioBuf as object) != (queue.ram as object)
      ensures Valid() && !reqInProgress && this.queue == queue && this.dev == dev
    {
      this.queue, this.dev := queue, dev;
      reqInProgress, isIn, descIdx, junk, writeSize := false, false, 0, [], 0;
      buf := new Sector[0];
      ds, req := [], Read(0, 0);
    }

    /** The request that the disk works on is the one in progress. */
    ghost predicate Working()
      reads `ds, `req, `isIn, `writeSize, `junk, `buf, dev
    {
      && InRange(dev.g, req) && dev.sectorNum - dev.sectorIndex == req.start
      && dev.isWrite == req.Write? && isIn == req.Read? && writeSize == |Buffer(ds, true)| && 0 < writeSize < SIGNED32
      && |junk| == writeSize && HasClusters(dev.g, dev.before) && Whole(dev.g, dev.before)
      && (if req.Write? then dev.sectorCount == |req.data| && AllWhole(req.data)
          else dev.sectorCount == req.count == (writeSize - 1) / SECTOR && dev.ioBuf == buf && buf.Length == req.count)
    }

    ghost predicate Valid()
      reads this, queue, queue.ram, dev, dev.ioBuf
    {
      && queue.Valid() && dev.Valid() && (reqInProgress <==> dev.busy)
      // the buffer of the request is not guest memory
      && (dev.ioBuf as object) != (queue.ram as object)
      && (if reqInProgress then
            Working() && (req.Write? ==> dev.ioBuf.Length == |req.data| && dev.ioBuf[..] == req.data)
          else Whole(dev.g, dev.clusters))
    }

    /** The request is done: the disk has its effect, and the guest the answer. */
    ghost predicate Finished(was: seq<bv8>)
      reads `ds, `req, queue, queue.ram, dev
    {
      && dev.g.Valid() && HasClusters(dev.g, dev.before) && InRange(dev.g, req)
      && dev.clusters == AfterOne(dev.g, dev.before, req)
      && Answered(was, queue.ram[..], Buffer(ds, true), req, ReplyOne(dev.g, dev.before, req))
    }

    /** What malloc delivered, with the sectors and the status in it. */
    method Reply() returns (data: seq<bv8>)
      requires dev.Valid() && !dev.busy && Working() && req.Read?
      ensures |data| == writeSize && data[writeSize - 1] == S_OK
      ensures dev.g.Valid() && Bytes(ReplyOne(dev.g, dev.before, req)) <= data
    {
      hide Device.Valid, Whole, HasClusters, ReadRun, Bytes, AllWhole, Image.Valid;
      dev.Done();
      ReadWhole(dev.g, dev.before, req.start, req.count);
      assert buf[..] == dev.ioBuf[..dev.sectorCount] == ReplyOne(dev.g, dev.before, req);
      BytesLength(buf[..]);
      var bytes := Bytes(buf[..]);
      data := (bytes + junk[|bytes|..])[writeSize - 1 := S_OK];
    }

    /** virtio_block_req_end: the entry of the used ring is returned. */
    method ReqEnd() returns (answer: (nat, nat))
      requires queue.Valid() && dev.Valid() && !dev.busy && Working() && Sound(queue.table, queue.ram[..], descIdx, ds)
      requires (dev.ioBuf as object) != (queue.ram as object)
      requires req.Write? ==> dev.ioBuf.Length == |req.data| && dev.ioBuf[..] == req.data
      modifies queue.ram
      ensures queue.Valid() && dev.Valid() && Finished(old(queue.ram[..])) && Whole(dev.g, dev.clusters)
      ensures answer == (descIdx, if isIn then writeSize else 1)
    {
      hide *;
      ghost var was, b := queue.ram[..], Buffer(ds, true);
      SoundParts(queue.table, queue.ram[..], descIdx, ds);
      WorkingParts();
      DiskDone();
      BufferNotLong(ds, true, 0, if isIn then writeSize else 1);
      var r, out, astray;
      if isIn {
        var data := Reply();
        r, out, astray := queue.Memcpy(descIdx, 0, writeSize, true, data, ds);
        CopiedAll(b, data, was, queue.ram[..], out);
        ReadAnswered(was, queue.ram[..], b, req, ReplyOne(dev.g, dev.before, req), data);
        answer := (descIdx, writeSize);
      } else {
        r, out, astray := queue.Memcpy(descIdx, 0, 1, true, [S_OK], ds);
        CopiedFirst(b, was, queue.ram[..], out);
        WriteAnswered(was, queue.ram[..], b, req, ReplyOne(dev.g, dev.before, req));
        answer := (descIdx, 1);
      }
      FinishedIs(was);
    }

    lemma FinishedIs(was: seq<bv8>)
      requires dev.g.Valid() && HasClusters(dev.g, dev.before) && InRange(dev.g, req)
      requires dev.clusters == AfterOne(dev.g, dev.before, req)
      requires Answered(was, queue.ram[..], Buffer(ds, true), req, ReplyOne(dev.g, dev.before, req))
      ensures Finished(was)
    {
    }

    lemma WorkingParts()
      requires Working()
      ensures isIn == req.Read? == !req.Write? && 0 < writeSize == |Buffer(ds, true)| && writeSize < SIGNED32
      ensures HasClusters(dev.g, dev.before) && InRange(dev.g, req)
    {
      hide Whole, HasClusters, AllWhole, Buffer;
    }

    /** The disk has the effect of the request. */
    lemma DiskDone()
      requires dev.Valid() && !dev.busy && Working()
      requires req.Write? ==> dev.ioBuf.Length == |req.data| && dev.ioBuf[..] == req.data
      ensures dev.g.Valid() && HasClusters(dev.g, dev.before) && InRange(dev.g, req)
      ensures dev.clusters == AfterOne(dev.g, dev.before, req) && Whole(dev.g, dev.clusters)
    {
      hide Device.Valid, Whole, HasClusters, AllWhole, Image.Valid, Buffer, Patched;
      dev.Done();
      AfterWhole(dev.g, dev.before, req);
      if req.Write? { assert dev.ioBuf[..dev.sectorCount] == dev.ioBuf[..]; }
    }

    /** memcpy_from_queue: a part of the read buffer. */
    method Take(i: nat, ghost chain: seq<Desc>, offset: nat, count: nat, ghost read: seq<bv8>)
      returns (ok: bool, out: seq<bv8>)
      requires Valid() && Sound(queue.table, queue.ram[..], i, chain)
      requires read == Gather(queue.ram[..], Buffer(chain, false)) && count < SIGNED32
      modifies queue.ram
      ensures Valid() && queue.ram[..] == old(queue.ram[..])
      ensures ok <==> count == 0 || offset + count <= |read|
      ensures ok ==> out == if count == 0 then [] else read[offset..offset + count]
    {
      hide Device.Valid, Queue.Valid, Working, Whole, Copied, Amount, TooLong, Chain, Buffer, Gather, Sound, InRam,
           WellFormed, Apart, Front;
      ghost var was := queue.ram[..];
      SoundParts(queue.table, was, i, chain);
      BufferNotLong(chain, false, offset, count);
      var r, data, astray := queue.Memcpy(i, offset, count, false, [], chain);
      CopiedOut(Buffer(chain, false), offset, count, was, queue.ram[..], data);
      ok, out := r >= 0, data;
    }

    /** virtio_block_recv_request: refused while a request is in progress. The chain is read, and the disk goes to work
        on what it asks for; it answers at once or later. `read` is what the guest put in the read buffer. */
    method RecvRequest(i: nat, ghost chain: seq<Desc>, readSize: nat, writeSize: nat, junk: seq<bv8>,
                       ghost read: seq<bv8>)
      returns (ret: int, answer: Option<(nat, nat)>)
      requires Valid() && Sound(queue.table, queue.ram[..], i, chain) &&
               read == Gather(queue.ram[..], Buffer(chain, false))
      requires readSize == |read| && writeSize == |Buffer(chain, true)| == |junk|
      requires !reqInProgress ==> Proper(dev.g, read, writeSize)
      modifies this, queue.ram, dev
      ensures Valid() && ret == if old(reqInProgress) then -1 else 0
      ensures old(reqInProgress) || Asks(read, writeSize).None? ==>
                && answer.None? && reqInProgress == old(reqInProgress) && queue.ram[..] == old(queue.ram[..])
                && dev.clusters == old(dev.clusters) && req == old(req) && ds == old(ds) && descIdx == old(descIdx)
      ensures !old(reqInProgress) && Asks(read, writeSize).Some? ==>
                && req == Asks(read, writeSize).value && ds == chain && descIdx == i && dev.before == old(dev.clusters)
                && (reqInProgress <==> answer.None?)
                && (if answer.None? then queue.ram[..] == old(queue.ram[..])
                    else answer.value == (i, if req.Read? then writeSize else 1) && Finished(old(queue.ram[..])))
    {
      hide Valid, Device.Valid, Queue.Valid, Working, Whole, Sound, Finished, Buffer, Gather, Proper, Asks, Le, Sectors,
           InRange, Chain, InRam, Apart, WellFormed;
      SoundParts(queue.table, queue.ram[..], i, chain);
      ret, answer := 0, None;
      if reqInProgress {
        return -1, None;
      }
      var ok, h := Take(i, chain, 0, HEADER, read);
      AsksIs(dev.g, read, writeSize);
      if !ok {
        return;
      }
      var kind, sector := Le(h[..4]), Le(h[8..16]);
      if kind == T_IN {
        answer := StartRead(i, chain, writeSize, junk, sector);
      } else if kind == T_OUT {
        var data;
        ok, data := Take(i, chain, HEADER, readSize - HEADER, read);
        answer := StartWrite(i, chain, writeSize, junk, sector, Sectors(data));
      }
    }

    /** The disk goes to work on `r`. */
    ghost predicate Started(r: BlockRuns.Request, i: nat, chain: seq<Desc>)
      reads this
    {
      req == r && ds == chain && descIdx == i
    }

    method StartRead(i: nat, ghost chain: seq<Desc>, writeSize: nat, junk: seq<bv8>, sector: nat)
      returns (answer: Option<(nat, nat)>)
      requires Valid() && !reqInProgress && Sound(queue.table, queue.ram[..], i, chain) &&
               0 < writeSize == |Buffer(chain, true)| == |junk|
      requires InRange(dev.g, Read(sector, (writeSize - 1) / SECTOR))
      modifies this, queue.ram, dev
      ensures Valid() && Started(Read(sector, (writeSize - 1) / SECTOR), i, chain) && dev.before == old(dev.clusters)
      ensures reqInProgress <==> answer.None?
      ensures if answer.None? then queue.ram[..] == old(queue.ram[..])
              else answer.value == (i, writeSize) && Finished(old(queue.ram[..]))
    {
      hide Valid, Device.Valid, Queue.Valid, Working, Whole, Sound, Finished, Buffer, HasClusters, AllWhole,
           Chain, InRam, Apart, WellFormed;
      Idle();
      SoundParts(queue.table, queue.ram[..], i, chain);
      var count := (writeSize - 1) / SECTOR;
      buf := new Sector[count](k => []);
      isIn, descIdx, ds, this.writeSize, this.junk, req := true, i, chain, writeSize, junk, Read(sector, count);
      var ret := dev.Submit(false, sector, buf, count);
      ReadWorks(sector);
      answer := Settle(ret);
    }

    lemma Idle()
      requires Valid() && !reqInProgress
      ensures queue.Valid() && dev.Valid() && !dev.busy && Whole(dev.g, dev.clusters)
    {
      hide Device.Valid, Queue.Valid, Working, Whole;
    }

    lemma ReadWorks(sector: nat)
      requires isIn && 0 < writeSize == |Buffer(ds, true)| == |junk| && writeSize < SIGNED32
      requires req == Read(sector, (writeSize - 1) / SECTOR) && InRange(dev.g, req) && buf.Length == req.count
      requires !dev.isWrite && dev.ioBuf == buf && dev.sectorCount == req.count
      requires dev.sectorNum - dev.sectorIndex == sector && Whole(dev.g, dev.before)
      ensures Working()
    {
      hide Buffer, At, AllWhole;
    }

    lemma WriteWorks(sector: nat, data: seq<Sector>)
      requires !isIn && 0 < writeSize == |Buffer(ds, true)| == |junk| && writeSize < SIGNED32
      requires req == Write(sector, data) && InRange(dev.g, req) && AllWhole(data)
      requires dev.isWrite && dev.sectorCount == |data|
      requires dev.sectorNum - dev.sectorIndex == sector && Whole(dev.g, dev.before)
      ensures Working()
    {
      hide Buffer, At, AllWhole;
    }

    method StartWrite(i: nat, ghost chain: seq<Desc>, writeSize: nat, junk: seq<bv8>, sector: nat, data: seq<Sector>)
      returns (answer: Option<(nat, nat)>)
      requires Valid() && !reqInProgress && Sound(queue.table, queue.ram[..], i, chain) &&
               0 < writeSize == |Buffer(chain, true)| == |junk|
      requires InRange(dev.g, Write(sector, data)) && AllWhole(data)
      modifies this, queue.ram, dev
      ensures Valid() && Started(Write(sector, data), i, chain) && dev.before == old(dev.clusters)
      ensures reqInProgress <==> answer.None?
      ensures if answer.None? then queue.ram[..] == old(queue.ram[..])
              else answer.value == (i, 1) && Finished(old(queue.ram[..]))
    {
      hide Valid, Device.Valid, Queue.Valid, Working, Whole, Sound, Finished, Buffer, HasClusters, AllWhole,
           Chain, InRam, Apart, WellFormed;
      Idle();
      SoundParts(queue.table, queue.ram[..], i, chain);
      var bytes := new Sector[|data|](k requires 0 <= k < |data| => data[k]);
      assert bytes[..] == data;
      isIn, descIdx, ds, this.writeSize, this.junk, req := false, i, chain, writeSize, junk, Write(sector, data);
      var ret := dev.Submit(true, sector, bytes, |data|);
      WriteWorks(sector, data);
      answer := Settle(ret);
    }

    /** What follows the submission: the request is in progress, or it is answered. */
    method Settle(ret: int) returns (answer: Option<(nat, nat)>)
      requires queue.Valid() && dev.Valid() && Working() && Sound(queue.table, queue.ram[..], descIdx, ds)
      requires (dev.ioBuf as object) != (queue.ram as object)
      requires ret == if dev.busy then 1 else 0
      requires req.Write? ==> dev.ioBuf.Length == |req.data| && dev.ioBuf[..] == req.data
      modifies `reqInProgress, queue.ram
      ensures Valid() && (reqInProgress <==> answer.None?)
      ensures if answer.None? then queue.ram[..] == old(queue.ram[..])
              else answer.value == (descIdx, if isIn then writeSize else 1) && Finished(old(queue.ram[..]))
    {
      hide Device.Valid, Sound, Working, Finished, Whole, Queue.Valid;
      if ret > 0 {
        reqInProgress := true;
        answer := None;
      } else {
        var a := ReqEnd();
        reqInProgress := false;
        answer := Some(a);
      }
    }

    /** A block arrives (bf_read_onload); if that completes the request, it is answered (virtio_block_req_cb), as long
        as the guest left the chain as it is. */
    method Loaded(num: nat, data: seq<Sector>) returns (answer: Option<(nat, nat)>)
      requires Valid() && (reqInProgress ==> Sound(queue.table, queue.ram[..], descIdx, ds))
      requires BlockCache.Loading(dev.cached, num) && dev.g.Valid() && dev.g.HasBlock(num) &&
               data == dev.g.BlockData(num)
      modifies this, queue.ram, dev, dev.ioBuf
      ensures Valid() && (answer.Some? <==> old(reqInProgress) && !reqInProgress)
      ensures req == old(req) && ds == old(ds) && descIdx == old(descIdx) && dev.before == old(dev.before)
      ensures if answer.None? then queue.ram[..] == old(queue.ram[..]) && reqInProgress == old(reqInProgress)
              else answer.value == (descIdx, if req.Read? then writeSize else 1) && Finished(old(queue.ram[..]))
    {
      hide Device.Valid, Sound, Finished, Whole, Queue.Valid, BlockCache.Loading, Image.HasBlock, Image.BlockData;
      var calls := dev.completions;
      answer := None;
      dev.UpdateBlock(num, data);
      if dev.completions != calls {
        var a := ReqEnd();
        reqInProgress := false;
        answer := Some(a);
      }
    }
  }

  lemma SoundParts(t: Table, ram: seq<bv8>, i: nat, ds: seq<Desc>)
    requires Sound(t, ram, i, ds)
    ensures Chain(t, ram, i, ds) && WellFormed(ds) && InRam(Buffer(ds, false), ram) && InRam(Buffer(ds, true), ram)
    ensures Apart(t, Buffer(ds, true)) && |Buffer(ds, false)| < SIGNED32 && |Buffer(ds, true)| < SIGNED32
  {
  }

  /** What a copy out of a buffer delivers. */
  lemma CopiedOut(b: seq<nat>, offset: nat, count: nat, was: seq<bv8>, now: seq<bv8>, out: seq<bv8>)
    requires InRam(b, was) && Copied(b, offset, Amount(|b|, offset, count), false, [], was, now, out)
    ensures now == was
    ensures count == 0 ==> out == []
    ensures offset + count <= |b| ==> out == Gather(was, b)[offset..offset + count]
  {
  }

  lemma CopiedAll(b: seq<nat>, data: seq<bv8>, was: seq<bv8>, now: seq<bv8>, out: seq<bv8>)
    requires InRam(b, was) && |data| == |b|
    requires Copied(b, 0, Amount(|b|, 0, |b|), true, data, was, now, out)
    ensures now == Scatter(was, b, data)
  {
    hide Scatter;
    assert b[0..|b|] == b && data[..|b|] == data;
  }

  lemma CopiedFirst(b: seq<nat>, was: seq<bv8>, now: seq<bv8>, out: seq<bv8>)
    requires InRam(b, was) && 0 < |b| && Copied(b, 0, Amount(|b|, 0, 1), true, [S_OK], was, now, out)
    ensures b[0] < |was| && now == was[b[0] := S_OK]
  {
    var ps := [b[0]];
    assert b[0..1] == ps && [S_OK][..1] == [S_OK];
    assert Scatter(was, ps[..0], [S_OK][..0]) == was;
  }

  lemma WriteAnswered(was: seq<bv8>, now: seq<bv8>, b: seq<nat>, r: BlockRuns.Request, sectors: seq<Sector>)
    requires InRam(b, was) && 0 < |b| && r.Write? && b[0] < |was| && now == was[b[0] := S_OK]
    ensures Answered(was, now, b, r, sectors)
  {
  }

  // ----- what the guest finds

  /** A finished read without stale sectors has the bytes of the flat array and the status in its write buffer. */
  lemma FlatAnswered(g: Image, cl: Clusters, start: nat, count: nat, was: seq<bv8>, now: seq<bv8>, b: seq<nat>)
    requires g.Valid() && HasClusters(g, cl) && InRange(g, Read(start, count)) && NoneTwice(b)
    requires Answered(was, now, b, Read(start, count), ReplyOne(g, cl, Read(start, count)))
    requires NoneStale(g, cl, start, count)
    ensures InRam(b, now) && 0 < |b| && Bytes(Flat(g, cl)[start..start + count]) <= Gather(now, b)
    ensures Gather(now, b)[|b| - 1] == 0
  {
    hide Bytes, Gather, Flat, ReadRun, NoneStale, HasClusters, Image.Valid, NoneTwice;
    ReadIsFlatIff(g, cl, start, count);
  }

  /** What one request wrote, the next one reads: the bytes behind its header, as far as they are whole sectors. */
  lemma WrittenIsRead(g: Image, cl: Clusters, start: nat, body: seq<bv8>)
    requires g.Valid() && HasClusters(g, cl) && InRange(g, Write(start, Sectors(body)))
    ensures var count := |Sectors(body)|; var now := AfterOne(g, cl, Write(start, Sectors(body)));
            && SECTOR * count <= |body| && InRange(g, Read(start, count))
            && Bytes(ReplyOne(g, now, Read(start, count))) == body[..SECTOR * count]
  {
    var data := Sectors(body);
    var now := Patched(g, cl, start, data);
    SectorsBack(body);
    hide Bytes, Sectors, Flat, ReadRun, HasClusters, Image.Valid, Patched;
    AllWritten(g, cl, start, data);
    ReadIsFlatIff(g, now, start, |data|);
    PatchedIsOver(g, cl, start, data);
    assert Flat(g, now)[start..start + |data|] == data;
  }

  lemma AllWritten(g: Image, cl: Clusters, start: nat, data: seq<Sector>)
    requires g.Valid() && HasClusters(g, cl) && start + |data| <= |g.sectors|
    ensures NoneStale(g, Patched(g, cl, start, data), start, |data|)
  {
  }
}
