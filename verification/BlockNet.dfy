/** The block device of block_net.c: one request at a time, which runs until a block is missing and goes on when the
    block is loaded. */
module BlockNet {
  import opened Options
  import opened Quotients
  import opened Sequences
  import opened BlockImage
  import opened BlockCache

  /** What a request has done after `idx` of its `count` sectors; `cl0` are the clusters before it. */
  ghost predicate Progress(g: Image, cl0: Clusters, isWrite: bool, start: nat, count: nat, idx: nat, cl: Clusters,
                           buf: seq<Sector>)
    requires g.Valid() && HasClusters(g, cl0) && start + count <= |g.sectors| && idx <= count <= |buf|
  {
    if isWrite then
      WrittenSoFar(g, cl0, start, buf[..idx], cl) && (idx == count ==> cl == Patched(g, cl0, start, buf[..idx]))
    else
      cl == cl0 && buf[..idx] + ReadRun(g, cl0, start + idx, count - idx) == ReadRun(g, cl0, start, count)
  }

  lemma ProgressStart(g: Image, cl0: Clusters, isWrite: bool, start: nat, count: nat, buf: seq<Sector>)
    requires g.Valid() && HasClusters(g, cl0) && start + count <= |g.sectors| && count <= |buf|
    ensures Progress(g, cl0, isWrite, start, count, 0, cl0, buf)
  {
    hide ReadRun, Patched;
    PatchNothing(g, cl0, start);
    assert buf[..0] == [];
  }

  /** A finished read delivered what a read delivers; a finished write wrote its sectors and nothing else. */
  lemma ProgressEnd(g: Image, cl0: Clusters, isWrite: bool, start: nat, count: nat, cl: Clusters, buf: seq<Sector>)
    requires g.Valid() && HasClusters(g, cl0) && start + count <= |g.sectors| && count <= |buf|
    requires Progress(g, cl0, isWrite, start, count, count, cl, buf)
    ensures isWrite ==> cl == Patched(g, cl0, start, buf[..count])
    ensures !isWrite ==> cl == cl0 && buf[..count] == ReadRun(g, cl0, start, count)
  {
    hide Patched, WrittenSoFar;
    assert ReadRun(g, cl0, start + count, 0) == [];
  }

  lemma ReadStep(g: Image, cl: Clusters, start: nat, count: nat, idx: nat, buf: seq<Sector>, now: seq<Sector>)
    requires g.Valid() && HasClusters(g, cl) && start + count <= |g.sectors| && idx < count <= |buf| == |now|
    requires Progress(g, cl, false, start, count, idx, cl, buf)
    requires var m := RunLength(g, cl, start + idx, count - idx);
             now[..idx + m] == buf[..idx] + Turn(g, cl, start + idx, m)
    ensures Progress(g, cl, false, start, count, idx + RunLength(g, cl, start + idx, count - idx), cl, now)
  {
    hide *;
    var s, n := start + idx, count - idx;
    ReadRunStep(g, cl, s, n);
    var m := RunLength(g, cl, s, n);
    ReadProgress(g, cl, start, count, idx, buf);
    ReadProgress(g, cl, start, count, idx + m, now);
    Assoc(buf[..idx], Turn(g, cl, s, m), ReadRun(g, cl, s + m, n - m));
  }

  lemma ReadProgress(g: Image, cl: Clusters, start: nat, count: nat, idx: nat, buf: seq<Sector>)
    requires g.Valid() && HasClusters(g, cl) && start + count <= |g.sectors| && idx <= count <= |buf|
    ensures Progress(g, cl, false, start, count, idx, cl, buf) <==>
            buf[..idx] + ReadRun(g, cl, start + idx, count - idx) == ReadRun(g, cl, start, count)
  {
    hide ReadRun, HasClusters, Image.Valid;
  }

  lemma ReadRunStep(g: Image, cl: Clusters, s: nat, n: nat)
    requires g.Valid() && HasClusters(g, cl) && s + n <= |g.sectors| && 0 < n
    ensures Written(cl, s) ==> s % CLUSTER + RunLength(g, cl, s, n) <= CLUSTER
    ensures var m := RunLength(g, cl, s, n); ReadRun(g, cl, s, n) == Turn(g, cl, s, m) + ReadRun(g, cl, s + m, n - m)
  {
    hide Turn, HasClusters, Image.Valid;
  }

  lemma WriteStep(g: Image, cl0: Clusters, start: nat, count: nat, idx: nat, cl: Clusters, buf: seq<Sector>, m: nat)
    requires g.Valid() && HasClusters(g, cl0) && start + count <= |g.sectors| && idx < count <= |buf| &&
             idx + m <= count
    requires Progress(g, cl0, true, start, count, idx, cl, buf)
    requires Written(cl, start + idx) && 0 < m && (start + idx) % CLUSTER + m <= CLUSTER
    ensures HasClusters(g, cl)
    ensures var c := (start + idx) / CLUSTER;
            Progress(g, cl0, true, start, count, idx + m,
                     cl[c := Some(ClusterWritten(cl[c].value, (start + idx) % CLUSTER, buf[idx..idx + m]))], buf)
  {
    hide Patched;
    PatchMore(g, cl0, start, buf[..idx], cl, buf[idx..idx + m]);
    assert buf[..idx] + buf[idx..idx + m] == buf[..idx + m];
  }

  lemma AllocateStep(g: Image, cl0: Clusters, start: nat, count: nat, idx: nat, cl: Clusters, buf: seq<Sector>)
    requires g.Valid() && HasClusters(g, cl0) && start + count <= |g.sectors| && idx < count <= |buf|
    requires Progress(g, cl0, true, start, count, idx, cl, buf) && !Written(cl, start + idx)
    ensures (start + idx) / CLUSTER * CLUSTER + CLUSTER <= |g.sectors|
    ensures var c := (start + idx) / CLUSTER;
            c < |cl| && Progress(g, cl0, true, start, count, idx, cl[c := Some(FreshCluster(g, c))], buf)
  {
    hide Patched, WrittenSoFar;
    Allocate(g, cl0, start, buf[..idx], cl);
  }

  lemma ProgressHasClusters(g: Image, cl0: Clusters, isWrite: bool, start: nat, count: nat, idx: nat, cl: Clusters,
                            buf: seq<Sector>)
    requires g.Valid() && HasClusters(g, cl0) && start + count <= |g.sectors| && idx <= count <= |buf|
    requires Progress(g, cl0, isWrite, start, count, idx, cl, buf)
    ensures HasClusters(g, cl)
  {
    hide Patched, ReadRun;
  }

  lemma ReadBefore(g: Image, cl0: Clusters, start: nat, count: nat, idx: nat, cl: Clusters, buf: seq<Sector>)
    requires g.Valid() && HasClusters(g, cl0) && start + count <= |g.sectors| && idx <= count <= |buf|
    requires Progress(g, cl0, false, start, count, idx, cl, buf)
    ensures cl == cl0
  {
    hide ReadRun;
  }

  function BlockNum(s: nat, blockSize: nat): nat
    requires 0 < blockSize
  {
    s / blockSize
  }

  /** The place of a sector in its block. */
  function Offset(s: nat, blockSize: nat): (o: nat)
    requires 0 < blockSize
    ensures o < blockSize
  {
    s % blockSize
  }

  lemma TurnOfBlock(g: Image, cl: Clusters, s: nat, m: nat)
    requires HasClusters(g, cl) && s + m <= |g.sectors| && !Written(cl, s)
    ensures Turn(g, cl, s, m) == g.sectors[s..s + m]
  {
  }

  /** The image has the block of sector `s`. */
  ghost predicate PlaceOk(g: Image, s: nat) {
    g.Valid() && s < |g.sectors| && g.HasBlock(BlockNum(s, g.blockSize))
  }

  /** The data of the block of sector `s`. */
  ghost predicate HoldsSector(g: Image, b: Block, s: nat) {
    g.Valid() && g.HasBlock(BlockNum(s, g.blockSize)) && b.data == g.BlockData(BlockNum(s, g.blockSize))
  }

  /** What is read from a loaded block, and the cluster that is copied out of it. */
  lemma FromBlock(g: Image, b: Block, s: nat, m: nat)
    requires g.Valid() && s < |g.sectors| && m <= g.blockSize - Offset(s, g.blockSize) && HoldsSector(g, b, s)
    ensures s + m <= |g.sectors| && |b.data| == g.blockSize
    ensures b.data[Offset(s, g.blockSize)..Offset(s, g.blockSize) + m] == g.sectors[s..s + m]
    ensures var c := s / CLUSTER; var o := c * CLUSTER % g.blockSize;
            && o + CLUSTER <= g.blockSize && c * CLUSTER + CLUSTER <= |g.sectors|
            && b.data[o..o + CLUSTER] == FreshCluster(g, c)
  {
    BlockOf(g, s);
    ClusterInBlock(g, s);
    Unique(s / g.blockSize, g.blockSize, s);
    var base := s / g.blockSize * g.blockSize;
    Part(g.sectors, base, g.blockSize, s - base, s - base + m);
    var first := s / CLUSTER * CLUSTER;
    Part(g.sectors, base, g.blockSize, first - base, first - base + CLUSTER);
  }

  lemma Part<T>(x: seq<T>, a: nat, n: nat, i: nat, j: nat)
    requires a + n <= |x| && i <= j <= n
    ensures x[a..a + n][i..j] == x[a + i..a + j]
  {
    var y, z := x[a..a + n], x[a + i..a + j];
    forall k | 0 <= k < j - i ensures y[i..j][k] == z[k] {
      assert y[i + k] == x[a + (i + k)];
    }
    assert y[i..j] == z;
  }

  /** The clusters and the fields of the current request. */
  datatype Running = Running(clusters: Clusters, before: Clusters, isWrite: bool, num: nat, idx: nat, count: nat) {
    ghost predicate Ok(g: Image, buf: seq<Sector>)
      requires g.Valid()
    {
      && HasClusters(g, clusters) && HasClusters(g, before) && idx <= count <= |buf| && idx <= num
      && num - idx + count <= |g.sectors|
      && Progress(g, before, isWrite, num - idx, count, idx, clusters, buf)
    }

    function Advanced(m: nat): Running {
      this.(num := num + m, idx := idx + m)
    }
  }

  lemma RunBounds(g: Image, r: Running, buf: seq<Sector>)
    requires g.Valid() && r.Ok(g, buf)
    ensures r.idx <= r.count <= |buf| && r.idx <= r.num && r.num + (r.count - r.idx) <= |g.sectors|
    ensures HasClusters(g, r.clusters) && |r.clusters| * CLUSTER == |g.sectors|
    ensures Written(r.clusters, r.num) ==>
              r.num / CLUSTER < |r.clusters| && r.clusters[r.num / CLUSTER].Some? &&
                |r.clusters[r.num / CLUSTER].value| == CLUSTER
    ensures r.num < |g.sectors| ==> r.num / CLUSTER < |r.clusters|
  {
    hide Progress;
  }

  lemma DeliverStep(g: Image, r: Running, m: nat, buf: seq<Sector>, now: seq<Sector>)
    requires g.Valid() && r.Ok(g, buf) && !r.isWrite && HasClusters(g, r.clusters) && r.idx < r.count <= |buf| == |now|
    requires r.num + (r.count - r.idx) <= |g.sectors| && m == RunLength(g, r.clusters, r.num, r.count - r.idx)
    requires Written(r.clusters, r.num) ==> r.num % CLUSTER + m <= CLUSTER
    requires now[..r.idx + m] == buf[..r.idx] + Turn(g, r.clusters, r.num, m)
    ensures r.Advanced(m).Ok(g, now)
  {
    hide Image.Valid, HasClusters, Progress, RunLength, Turn, Written;
    ReadBefore(g, r.before, r.num - r.idx, r.count, r.idx, r.clusters, buf);
    ReadStep(g, r.before, r.num - r.idx, r.count, r.idx, buf, now);
  }

  lemma StoreStep(g: Image, r: Running, m: nat, buf: seq<Sector>, c: nat, v: seq<Sector>)
    requires g.Valid() && r.Ok(g, buf) && r.isWrite && HasClusters(g, r.clusters) && r.idx < r.count <= |buf| &&
             r.idx + m <= r.count
    requires Written(r.clusters, r.num) && 0 < m && r.num % CLUSTER + m <= CLUSTER && c == r.num / CLUSTER
    requires v == ClusterWritten(r.clusters[c].value, r.num % CLUSTER, buf[r.idx..r.idx + m])
    ensures r.(clusters := r.clusters[c := Some(v)]).Advanced(m).Ok(g, buf)
  {
    hide Progress, Image.Valid, HasClusters, ClusterWritten;
    WriteStep(g, r.before, r.num - r.idx, r.count, r.idx, r.clusters, buf, m);
    ProgressHasClusters(g, r.before, true, r.num - r.idx, r.count, r.idx + m, r.clusters[c := Some(v)], buf);
  }

  lemma FreshStep(g: Image, r: Running, buf: seq<Sector>, c: nat)
    requires g.Valid() && r.Ok(g, buf) && r.isWrite && HasClusters(g, r.clusters) && r.idx < r.count <= |buf|
    requires !Written(r.clusters, r.num) && c == r.num / CLUSTER && c < |r.clusters|
    ensures c * CLUSTER + CLUSTER <= |g.sectors|
    ensures r.(clusters := r.clusters[c := Some(FreshCluster(g, c))]).Ok(g, buf)
  {
    hide Progress, Image.Valid, FreshCluster, Written;
    AllocateStep(g, r.before, r.num - r.idx, r.count, r.idx, r.clusters, buf);
  }

  /** How far the code goes in one turn. */
  lemma RunLengthIs(g: Image, r: Running, n: nat)
    requires g.Valid() && 0 < n && r.num < |g.sectors|
    ensures RunLength(g, r.clusters, r.num, n) ==
            var left := if Written(r.clusters, r.num) then CLUSTER - r.num % CLUSTER
              else g.blockSize - Offset(r.num, g.blockSize);
            if left < n then left else n
    ensures Written(r.clusters, r.num) ==> r.num % CLUSTER + RunLength(g, r.clusters, r.num, n) <= CLUSTER
  {
  }

  /** A request of the completion callback: a read into or a write from a buffer. */
  datatype Asked = Asked(isWrite: bool, start: nat, buf: array<Sector>, count: nat)

  ghost predicate AllAsked(g: Image, asked: seq<Asked>) {
    forall a :: a in asked ==> a.start + a.count <= |g.sectors| && a.count <= a.buf.Length
  }

  /** BlockDeviceHTTP */
  class Device {
    const blockSize: nat
    const nCachedMax: nat
    var cached: seq<Block>
    var clusters: Clusters
    var isWrite: bool
    var sectorNum: nat
    var curBlockNum: int
    var sectorIndex: nat
    var sectorCount: nat
    var ioBuf: array<Sector>
    /** How often the completion callback was called. */
    var completions: nat
    ghost const g: Image
    /** Whether a request waits for a block, and the clusters before the current request. */
    ghost var busy: bool
    ghost var before: Clusters

    ghost predicate Fixed() {
      g.Valid() && blockSize == g.blockSize && 0 < nCachedMax
    }

    ghost function Run(): Running
      reads this
    {
      Running(clusters, before, isWrite, sectorNum, sectorIndex, sectorCount)
    }

    /** What holds at each turn of the loop. */
    ghost predicate Core()
      reads this, ioBuf
    {
      Fixed() && CacheOk(g, cached) && Run().Ok(g, ioBuf[..])
    }

    /** A request waits exactly while its current block is loading; no other load can wake it up. */
    ghost predicate Valid()
      reads this, ioBuf
    {
      && Core()
      && if busy then
           && sectorIndex < sectorCount && AtBlock()
           && Loading(cached, curBlockNum) && !Written(clusters, sectorNum)
         else
           sectorIndex == sectorCount && !Loading(cached, curBlockNum)
    }

    constructor (ghost g: Image, blockSize: nat, nCachedMax: nat, nbSectors: nat)
      requires g.Valid() && blockSize == g.blockSize && 0 < nCachedMax && nbSectors == |g.sectors|
      ensures Valid() && !busy && this.g == g && cached == [] && completions == 0
      ensures clusters == seq(nbSectors / CLUSTER, i => None)
    {
      this.g, this.blockSize, this.nCachedMax := g, blockSize, nCachedMax;
      cached, curBlockNum := [], -1;
      clusters := seq(nbSectors / CLUSTER, i => None);
      before := seq(nbSectors / CLUSTER, i => None);
      isWrite, sectorNum, sectorIndex, sectorCount, completions, busy := false, 0, 0, 0, 0, false;
      ioBuf := new Sector[0];
      new;
      assert HasClusters(g, clusters) by { ImageClusters(g); }
      ProgressStart(g, clusters, false, 0, 0, ioBuf[..]);
    }

    /** bf_find_block */
    method FindBlock(num: nat) returns (found: bool, ghost i: nat)
      modifies `cached
      ensures found <==> Cached(old(cached), num)
      ensures !found ==> cached == old(cached)
      ensures found ==> i < |old(cached)| && old(cached)[i].num == num && cached == Front(old(cached), i)
    {
      var k := 0;
      while k < |cached|
        invariant k <= |cached| && cached == old(cached)
        invariant forall j :: 0 <= j < k ==> cached[j].num != num
      {
        if cached[k].num == num {
          assert cached[k] in cached;
          if k != 0 {
            cached := [cached[k]] + cached[..k] + cached[k + 1..];
          } else {
            assert cached == Front(cached, 0);
          }
          return true, k;
        }
        k := k + 1;
      }
      return false, 0;
    }

    /** bf_add_block */
    method AddBlock(num: nat)
      requires 0 < nCachedMax
      modifies `cached
      ensures cached == Added(old(cached), num, nCachedMax)
    {
      ghost var kept := MadeRoom(cached, nCachedMax);
      assert Added(cached, num, nCachedMax) == [Block(num, false, [])] + kept;
      if |cached| >= nCachedMax {
        LeftStart(cached, nCachedMax);
        hide *;
        var el: nat := |cached|;
        while el > 0
          invariant el <= |cached| && |cached| >= nCachedMax && Left(kept, cached, el, nCachedMax)
        {
          el := el - 1;
          LeftStep(kept, cached, el, nCachedMax);
          if cached[el].loaded {
            cached := Without(cached, el);
            if |cached| < nCachedMax {
              break;
            }
          }
        }
        if el == 0 && |cached| >= nCachedMax {
          LeftEnd(kept, cached, nCachedMax);
        }
        assert cached == kept;
      }
      cached := [Block(num, false, [])] + cached;
    }

    /** The request goes on with the same buffer, which a write does not change and a read changes only within it. */
    twostate predicate SameRequest()
      reads this, ioBuf
    {
      && isWrite == old(isWrite) && sectorCount == old(sectorCount) && ioBuf == old(ioBuf) && before == old(before)
      && sectorNum - sectorIndex == old(sectorNum - sectorIndex)
      && sectorCount <= ioBuf.Length && ioBuf[sectorCount..] == old(ioBuf[sectorCount..])
      && (isWrite ==> ioBuf[..] == old(ioBuf[..]))
    }

    method CopyOut(at: nat, data: seq<Sector>)
      requires at + |data| <= ioBuf.Length
      modifies ioBuf
      ensures ioBuf[..] == old(ioBuf[..at]) + data + old(ioBuf[at + |data|..])
    {
      ghost var was := ioBuf[..];
      var k := 0;
      while k < |data|
        invariant k <= |data| && ioBuf[..at + k] == was[..at] + data[..k] && ioBuf[at + k..] == was[at + k..]
      {
        ioBuf[at + k] := data[k];
        k := k + 1;
      }
    }

    /** A turn of a read that delivers `data`. */
    method Deliver(data: seq<Sector>)
      requires Core() && !isWrite && sectorIndex < sectorCount && HasClusters(g, clusters)
      requires sectorCount <= ioBuf.Length && sectorNum + (sectorCount - sectorIndex) <= |g.sectors|
      requires var m := RunLength(g, clusters, sectorNum, sectorCount - sectorIndex);
               (Written(clusters, sectorNum) ==> sectorNum % CLUSTER + m <= CLUSTER) &&
                 data == Turn(g, clusters, sectorNum, m)
      modifies `sectorIndex, `sectorNum, ioBuf
      ensures Core() && SameRequest() && sectorIndex > old(sectorIndex)
    {
      hide Image.Valid, HasClusters, CacheOk, RunLength, Turn, Written, Running.Ok;
      ghost var was, r := ioBuf[..], Run();
      CopyOut(sectorIndex, data);
      assert ioBuf[..r.idx + |data|] == was[..r.idx] + data;
      DeliverStep(g, r, |data|, was, ioBuf[..]);
      assert ioBuf[sectorCount..] == was[sectorCount..];
      sectorIndex, sectorNum := sectorIndex + |data|, sectorNum + |data|;
    }

    /** A turn of a write in an allocated cluster. */
    method Store(c: nat, offset: nat, n: nat)
      requires Core() && isWrite && sectorIndex + n <= sectorCount <= ioBuf.Length && 0 < n && HasClusters(g, clusters)
      requires Written(clusters, sectorNum) && c == sectorNum / CLUSTER && offset == sectorNum % CLUSTER &&
               offset + n <= CLUSTER
      modifies `clusters, `sectorIndex, `sectorNum
      ensures Core() && SameRequest() && sectorIndex > old(sectorIndex)
    {
      var v := ClusterWritten(clusters[c].value, offset, ioBuf[sectorIndex..sectorIndex + n]);
      hide Image.Valid, HasClusters, CacheOk, Written, Running.Ok;
      StoreStep(g, Run(), n, ioBuf[..], c, v);
      clusters := clusters[c := Some(v)];
      sectorIndex, sectorNum := sectorIndex + n, sectorNum + n;
    }

    /** A turn in an allocated cluster. */
    method ClusterTurn()
      requires Core() && sectorIndex < sectorCount && Written(clusters, sectorNum)
      modifies `clusters, `sectorIndex, `sectorNum, ioBuf
      ensures Core() && SameRequest() && sectorIndex > old(sectorIndex)
    {
      hide Image.Valid, HasClusters, CacheOk, Running.Ok;
      RunBounds(g, Run(), ioBuf[..]);
      RunLengthIs(g, Run(), sectorCount - sectorIndex);
      var n := sectorCount - sectorIndex;
      var offset, c := sectorNum % CLUSTER, sectorNum / CLUSTER;
      if CLUSTER - offset < n {
        n := CLUSTER - offset;
      }
      if isWrite {
        Store(c, offset, n);
      } else {
        Deliver(clusters[c].value[offset..offset + n]);
      }
    }

    /** A write finds its block loaded but its cluster not allocated: the cluster is copied out of the block. */
    method AllocateCluster(c: nat, b: Block)
      requires Core() && isWrite && sectorIndex < sectorCount && !Written(clusters, sectorNum) &&
               c == sectorNum / CLUSTER
      requires HoldsSector(g, b, sectorNum)
      modifies `clusters
      ensures Core() && SameRequest() && Written(clusters, sectorNum)
    {
      RunBounds(g, Run(), ioBuf[..]);
      hide Image.Valid, HasClusters, CacheOk, Running.Ok, HoldsSector, FreshCluster;
      FromBlock(g, b, sectorNum, 0);
      var offset := c * CLUSTER % blockSize;
      FreshStep(g, Run(), ioBuf[..], c);
      clusters := clusters[c := Some(b.data[offset..offset + CLUSTER])];
    }

    /** A read finds its block loaded. */
    method BlockTurn(b: Block)
      requires Core() && !isWrite && sectorIndex < sectorCount && !Written(clusters, sectorNum)
      requires HoldsSector(g, b, sectorNum)
      modifies `sectorIndex, `sectorNum, ioBuf
      ensures Core() && SameRequest() && sectorIndex > old(sectorIndex)
    {
      assert g.blockSize > 0;
      hide Image.Valid, HasClusters, CacheOk, Running.Ok, HoldsSector, RunLength, Turn, Offset, Written;
      RunBounds(g, Run(), ioBuf[..]);
      RunLengthIs(g, Run(), sectorCount - sectorIndex);
      var n, offset := sectorCount - sectorIndex, Offset(sectorNum, blockSize);
      if blockSize - offset < n {
        n := blockSize - offset;
      }
      FromBlock(g, b, sectorNum, n);
      TurnOfBlock(g, clusters, sectorNum, n);
      Deliver(b.data[offset..offset + n]);
    }

    /** bf_start_load_block: only the place in the cache; the block itself arrives later. */
    method StartLoadBlock(num: nat)
      requires Fixed() && CacheOk(g, cached) && PlaceOk(g, sectorNum) && num == BlockNum(sectorNum, g.blockSize) &&
               !Cached(cached, num)
      modifies `cached
      ensures CacheOk(g, cached) && forall k: int :: Loading(cached, k) <==> k == num || old(Loading(cached, k))
    {
      AddedKeeps(g, cached, num, nCachedMax);
      hide Image.Valid, CacheOk, Added, Image.HasBlock;
      AddBlock(num);
    }

    twostate predicate StillLoading()
      reads this
    {
      forall k: int :: old(Loading(cached, k)) ==> Loading(cached, k)
    }

    /** A turn outside the allocated clusters; it may have to wait for the block. */
    method UnwrittenTurn() returns (wait: bool)
      requires Core() && sectorIndex < sectorCount && !Written(clusters, sectorNum)
      modifies this, ioBuf
      ensures wait ==> Valid() && busy
      ensures !wait ==> Core() && !Loading(cached, curBlockNum)
      ensures !wait ==>
                sectorIndex > old(sectorIndex) || (sectorIndex == old(sectorIndex) && Written(clusters, sectorNum))
      ensures SameRequest() && StillLoading() && completions == old(completions)
    {
      hide Core, Valid, HoldsSector, Written, Loading, PlaceOk, AtBlock;
      Place();
      var loaded := LookUp();
      if loaded {
        LoadedTurn(cached[0]);
        return false;
      }
      Wait();
      return true;
    }

    ghost predicate AtBlock()
      reads this
    {
      0 < blockSize && curBlockNum == BlockNum(sectorNum, blockSize)
    }

    /** The block is found, and then it is in front, or its load is started. */
    method LookUp() returns (loaded: bool)
      requires Core() && PlaceOk(g, sectorNum)
      modifies `cached, `curBlockNum
      ensures Core() && StillLoading() && AtBlock()
      ensures loaded <==> !Loading(cached, curBlockNum)
      ensures loaded ==> cached != [] && HoldsSector(g, cached[0], sectorNum)
    {
      assert 0 < blockSize;
      hide Image.Valid, CacheOk, Running.Ok, HoldsSector, Loading, Cached, Front, PlaceOk, BlockNum;
      var blockNum := BlockNum(sectorNum, blockSize);
      curBlockNum := blockNum;
      var found, i := FindBlock(blockNum);
      if found {
        FoundBlock(g, old(cached), i, sectorNum);
        return cached[0].loaded;
      }
      StartLoadBlock(blockNum);
      return false;
    }

    method Wait()
      requires Core() && sectorIndex < sectorCount && !Written(clusters, sectorNum)
      requires Loading(cached, curBlockNum) && AtBlock()
      modifies `busy
      ensures Valid() && busy
    {
      hide Image.Valid, CacheOk, Running.Ok, Loading, Written;
      busy := true;
    }

    /** The block is there. */
    method LoadedTurn(b: Block)
      requires Core() && sectorIndex < sectorCount && !Written(clusters, sectorNum) && !Loading(cached, curBlockNum)
      requires HoldsSector(g, b, sectorNum)
      modifies `clusters, `sectorIndex, `sectorNum, `curBlockNum, ioBuf
      ensures Core() && !Loading(cached, curBlockNum) && SameRequest()
      ensures sectorIndex > old(sectorIndex) || (sectorIndex == old(sectorIndex) && Written(clusters, sectorNum))
    {
      hide Image.Valid, HasClusters, CacheOk, Running.Ok, HoldsSector, Written, Loading;
      if isWrite {
        AllocateCluster(sectorNum / CLUSTER, b);
        return;
      }
      BlockTurn(b);
      NoBlock(cached);
      curBlockNum := -1;
    }

    lemma Place()
      requires Core() && sectorIndex < sectorCount
      ensures PlaceOk(g, sectorNum) && sectorCount <= ioBuf.Length
    {
      RunBounds(g, Run(), ioBuf[..]);
      hide Running.Ok;
      BlockOf(g, sectorNum);
    }

    /** bf_rw_async1: the request goes on until it is done or has to wait. */
    method Rw(isSync: bool) returns (ret: int)
      requires Core() && !Loading(cached, curBlockNum)
      modifies this, ioBuf
      ensures Valid() && SameRequest() && StillLoading()
      ensures ret == if busy then 1 else 0
      ensures completions == old(completions) + if busy || isSync then 0 else 1
    {
      hide Core, Valid, Loading, Written;
      Bounds();
      while true
        invariant Core() && !Loading(cached, curBlockNum)
        invariant SameRequest() && StillLoading() && completions == old(completions)
        decreases sectorCount - sectorIndex, if Written(clusters, sectorNum) then 0 else 1
      {
        Bounds();
        var n := sectorCount - sectorIndex;
        if n == 0 { break; }
        if clusters[sectorNum / 8].Some? {
          ClusterTurn();
        } else {
          var wait := UnwrittenTurn();
          if wait { return 1; }
        }
      }
      Finish(isSync);
      ret := 0;
    }

    /** The end of a request. */
    method Finish(isSync: bool)
      requires Core() && sectorIndex == sectorCount && !Loading(cached, curBlockNum)
      modifies `busy, `completions
      ensures Valid() && !busy && completions == old(completions) + if isSync then 0 else 1
    {
      hide Image.Valid, CacheOk, Running.Ok, Loading;
      busy := false;
      if !isSync {
        completions := completions + 1;
      }
    }

    lemma Bounds()
      requires Core()
      ensures sectorIndex <= sectorCount <= ioBuf.Length
      ensures sectorIndex < sectorCount ==>
                sectorNum / 8 < |clusters| && (clusters[sectorNum / 8].Some? <==> Written(clusters, sectorNum))
    {
      RunBounds(g, Run(), ioBuf[..]);
      hide Running.Ok;
    }

    /** bf_update_block: the data of a block arrives; the request goes on if it waited for that block. */
    method UpdateBlock(num: nat, data: seq<Sector>)
      requires Valid() && Loading(cached, num) && g.HasBlock(num) && data == g.BlockData(num)
      modifies this, ioBuf
      ensures Valid() && SameRequest() && (busy ==> old(busy))
      ensures forall k: int :: k != num && old(Loading(cached, k)) ==> Loading(cached, k)
      ensures completions == old(completions) + if old(busy) && !busy then 1 else 0
      ensures !old(busy) ==> clusters == old(clusters) && ioBuf[..] == old(ioBuf[..])
    {
      hide Image.Valid, Image.HasBlock, Image.BlockData, CacheOk, Running.Ok, Loading, Written, Filled;
      Bounds();
      var i := FindLoading(num);
      FilledKeeps(g, cached, i) by { hide Filled, Loading; }
      cached := Filled(cached, i, data);
      if num == curBlockNum {
        var r := Rw(false);
      }
    }

    /** The list entry that the load was started for. */
    method FindLoading(num: nat) returns (i: nat)
      requires Fixed() && CacheOk(g, cached) && Loading(cached, num)
      ensures i < |cached| && cached[i].num == num && g.HasBlock(num)
    {
      i := 0;
      while cached[i].num != num
        invariant i < |cached| && forall j :: 0 <= j < i ==> cached[j].num != num
        decreases |cached| - i
      {
        i := i + 1;
        if i == |cached| {
          assert false;
        }
      }
      assert cached[i] in cached;
    }

    /** bf_read_async and bf_write_async */
    method Submit(isWrite: bool, start: nat, buf: array<Sector>, count: nat) returns (ret: int)
      requires Valid() && !busy && start + count <= |g.sectors| && count <= buf.Length
      modifies this, buf
      ensures Valid() && StillLoading() && ret == (if busy then 1 else 0) && completions == old(completions)
      ensures this.isWrite == isWrite && ioBuf == buf && sectorCount == count && sectorNum - sectorIndex == start
      ensures before == old(clusters) && (isWrite ==> buf[..] == old(buf[..])) && buf[count..] == old(buf[count..])
    {
      hide Image.Valid, CacheOk, Loading, HasClusters, Progress;
      Idle();
      ProgressStart(g, clusters, isWrite, start, count, buf[..]);
      this.isWrite, ioBuf, sectorNum, sectorIndex, sectorCount, before := isWrite, buf, start, 0, count, clusters;
      ret := Rw(true);
    }

    lemma Idle()
      requires Valid()
      ensures g.Valid() && HasClusters(g, clusters)
    {
      hide Progress;
    }

    /** What a finished request has done. */
    lemma Done()
      requires Valid() && !busy
      ensures g.Valid() && HasClusters(g, before) && sectorCount <= ioBuf.Length
      ensures sectorIndex == sectorCount && sectorCount <= sectorNum <= |g.sectors|
      ensures isWrite ==> clusters == Patched(g, before, sectorNum - sectorCount, ioBuf[..sectorCount])
      ensures !isWrite ==> clusters == before
      ensures !isWrite ==> ioBuf[..sectorCount] == ReadRun(g, before, sectorNum - sectorCount, sectorCount)
    {
      hide Progress, Image.Valid, CacheOk, Loading, HasClusters, Patched, ReadRun;
      ProgressEnd(g, before, isWrite, sectorNum - sectorIndex, sectorCount, clusters, ioBuf[..]);
    }

    /** bf_start_load_prefetch_group, before the first request: the blocks of the group that are not in the cache
        yet. */
    method StartGroup(nums: seq<nat>) returns (tab: seq<Option<nat>>)
      requires Valid() && !busy && curBlockNum == -1 && forall n :: n in nums ==> g.HasBlock(n)
      modifies `cached
      ensures Valid() && StillLoading() && GroupLoading(cached, nums, tab)
    {
      tab := [];
      var i := 0;
      hide Image.Valid, Image.HasBlock, CacheOk, Running.Ok, Loading, Cached, Front, Added, GroupLoading;
      GroupNone(cached);
      while i < |nums|
        invariant i <= |nums| && Valid() && StillLoading() && GroupLoading(cached, nums[..i], tab)
      {
        ghost var was := cached;
        var found, at := FindBlock(nums[i]);
        if found {
          FrontKeeps(g, was, at);
          GroupNext(was, cached, nums, i, tab, None);
          tab := tab + [None];
        } else {
          assert nums[i] in nums;
          AddedKeeps(g, was, nums[i], nCachedMax);
          NotLoading(was, nums[i]);
          AddBlock(nums[i]);
          NoBlock(cached);
          GroupNext(was, cached, nums, i, tab, Some(nums[i]));
          tab := tab + [Some(nums[i])];
        }
        i := i + 1;
      }
      assert nums[..i] == nums;
    }

    /** What the completion callback does (virtio_block_req_cb): it submits what is asked for next, until a request has
        to wait. */
    method CallBack(asked: seq<Asked>, from: nat) returns (taken: nat)
      requires Valid() && !busy && from <= |asked| && AllAsked(g, asked)
      modifies this, set a | a in asked :: a.buf
      ensures Valid() && StillLoading() && completions == old(completions)
      ensures from <= taken <= |asked| && (taken < |asked| ==> busy)
      ensures taken == from ==> !busy && clusters == old(clusters) && SameRequest()
      ensures from < taken ==> Current(asked[taken - 1])
    {
      hide Image.Valid, Valid, Loading;
      taken := from;
      Idle();
      Bounds() by { Running0(); }
      var waits := false;
      while taken < |asked| && !waits
        invariant waits == busy && Valid() && StillLoading() && completions == old(completions)
        invariant from <= taken <= |asked|
        invariant taken == from ==> !busy && clusters == old(clusters) && SameRequest()
        invariant from < taken ==> Current(asked[taken - 1])
        decreases |asked| - taken
      {
        var a := asked[taken];
        assert a in asked;
        var ret := Submit(a.isWrite, a.start, a.buf, a.count);
        waits := ret == 1;
        taken := taken + 1;
      }
    }

    /** The request that the device works on, or has finished last. */
    ghost predicate Current(a: Asked)
      reads this
    {
      isWrite == a.isWrite && ioBuf == a.buf && sectorCount == a.count && sectorNum - sectorIndex == a.start
    }

    /** bf_prefetch_group_onload: every block that was added for the group gets its data, whatever the requests that go
        on with one of them do to the cache: the one that waited for it, and those that its completion callback submits.
        */
    method GroupLoaded(nums: seq<nat>, tab: seq<Option<nat>>, data: seq<seq<Sector>>, asked: seq<Asked>)
      returns (taken: nat)
      requires Valid() && GroupLoading(cached, nums, tab) && |data| == |nums| && AllAsked(g, asked)
      requires forall i :: 0 <= i < |nums| ==> g.HasBlock(nums[i]) && data[i] == g.BlockData(nums[i])
      modifies this, ioBuf, set a | a in asked :: a.buf
      ensures Valid() && taken <= |asked|
      ensures taken == 0 ==>
                SameRequest() && (busy ==> old(busy)) && completions == old(completions) + if old(busy) && !busy then 1
                  else 0
      ensures 0 < taken ==> old(busy) && completions > old(completions) && Current(asked[taken - 1])
      ensures completions > old(completions) && taken < |asked| ==> busy
      ensures !old(busy) ==> clusters == old(clusters) && ioBuf[..] == old(ioBuf[..])
    {
      hide Image.Valid, Image.HasBlock, Image.BlockData, Core, Valid, Loading;
      Bounds() by { assert Core() by { Running0(); } }
      var i := 0;
      taken := 0;
      while i < |tab|
        invariant i <= |tab| && taken <= |asked| && Valid()
        invariant ioBuf == old(ioBuf) || exists a :: a in asked && ioBuf == a.buf
        invariant taken == 0 ==> SameRequest() && (busy ==> old(busy))
        invariant taken == 0 ==> completions == old(completions) + if old(busy) && !busy then 1 else 0
        invariant 0 < taken ==> old(busy) && completions > old(completions) && Current(asked[taken - 1])
        invariant completions > old(completions) && taken < |asked| ==> busy
        invariant !old(busy) ==> clusters == old(clusters) && ioBuf[..] == old(ioBuf[..])
        invariant forall j :: i <= j < |tab| && tab[j].Some? ==> Loading(cached, tab[j].value)
      {
        if tab[i].Some? {
          var calls := completions;
          UpdateBlock(tab[i].value, data[i]);
          if completions > calls {
            taken := CallBack(asked, taken);
          }
        }
        i := i + 1;
      }
    }

    lemma Running0()
      requires Valid()
      ensures Core()
    {
    }
  }

  /** The blocks that a group load was started for: some of the group, each once, and all still waiting. */
  ghost predicate GroupLoading(c: seq<Block>, nums: seq<nat>, tab: seq<Option<nat>>) {
    && |tab| == |nums|
    && (forall i :: 0 <= i < |tab| && tab[i].Some? ==> tab[i].value == nums[i] && Loading(c, nums[i]))
    && (forall i, j :: 0 <= i < j < |tab| && tab[i].Some? && tab[j].Some? ==> tab[i].value != tab[j].value)
  }

  lemma GroupNone(c: seq<Block>)
    ensures GroupLoading(c, [], [])
  {
  }

  lemma NotLoading(c: seq<Block>, num: nat)
    requires !Cached(c, num)
    ensures !Loading(c, num)
  {
  }

  lemma GroupNext(was: seq<Block>, c: seq<Block>, nums: seq<nat>, i: nat, tab: seq<Option<nat>>, next: Option<nat>)
    requires i < |nums| && GroupLoading(was, nums[..i], tab)
    requires forall k: int :: Loading(was, k) ==> Loading(c, k)
    requires next.Some? ==> next.value == nums[i] && Loading(c, nums[i]) && !Loading(was, nums[i])
    ensures GroupLoading(c, nums[..i + 1], tab + [next])
  {
    hide Loading;
    var more := tab + [next];
    assert nums[..i + 1] == nums[..i] + [nums[i]];
    forall j | 0 <= j < |more| && more[j].Some? ensures more[j].value == nums[j] && Loading(c, nums[j]) {
      if j < i { assert tab[j].Some? && nums[..i][j] == nums[j]; }
    }
  }

  lemma FoundBlock(g: Image, c: seq<Block>, i: nat, s: nat)
    requires g.Valid() && CacheOk(g, c) && i < |c| && c[i].num == BlockNum(s, g.blockSize)
    ensures CacheOk(g, Front(c, i)) && SameLoading(c, Front(c, i))
    ensures var b := Front(c, i)[0]; (Loading(c, c[i].num) <==> !b.loaded) && (b.loaded ==> HoldsSector(g, b, s))
  {
    FrontKeeps(g, c, i);
    assert c[i] in c;
  }

  lemma NoBlock(c: seq<Block>)
    ensures !Loading(c, -1)
  {
  }

  lemma ImageClusters(g: Image)
    requires g.Valid()
    ensures |g.sectors| % CLUSTER == 0
  {
    var n, b := |g.sectors|, g.blockSize;
    Multiple(n / b, b);
    assert n == n / b * b;
  }

  /** What the loop from the back still has to do. */
  ghost predicate Left(kept: seq<Block>, c: seq<Block>, el: nat, max: nat)
    requires el <= |c|
  {
    kept == Evict(c[..el], |c|, max) + c[el..]
  }

  lemma LeftStart(c: seq<Block>, max: nat)
    requires |c| >= max
    ensures Left(MadeRoom(c, max), c, |c|, max)
  {
    assert c[..|c|] == c;
  }

  lemma LeftStep(kept: seq<Block>, c: seq<Block>, el: nat, max: nat)
    requires el < |c| && max <= |c| && Left(kept, c, el + 1, max)
    ensures !c[el].loaded ==> Left(kept, c, el, max)
    ensures c[el].loaded ==> if |c| - 1 < max then kept == Without(c, el) else Left(kept, Without(c, el), el, max)
  {
    assert c[..el + 1][..el] == c[..el] == Without(c, el)[..el];
    assert c[el..] == [c[el]] + c[el + 1..] && Without(c, el)[el..] == c[el + 1..];
  }

  lemma LeftEnd(kept: seq<Block>, c: seq<Block>, max: nat)
    requires Left(kept, c, 0, max)
    ensures kept == c
  {
  }
}
