/** What the block device of block_net.c holds: the image on the server, the clusters that were written, and the flat
    array of sectors they stand for. */
module BlockImage {
  import opened Options
  import opened Quotients

  type Sector = seq<bv8>

  type Clusters = seq<Option<seq<Sector>>>

  const CLUSTER: nat := 8

  /** The image on the server and the size of its blocks. */
  datatype Image = Image(sectors: seq<Sector>, blockSize: nat) {
    predicate Valid() {
      0 < blockSize && blockSize % CLUSTER == 0 && |sectors| % blockSize == 0
    }

    predicate HasBlock(num: nat)
      requires Valid()
    {
      0 <= num * blockSize && num * blockSize + blockSize <= |sectors|
    }

    function BlockData(num: nat): (r: seq<Sector>)
      requires Valid() && HasBlock(num)
      ensures |r| == blockSize
    {
      sectors[num * blockSize..num * blockSize + blockSize]
    }
  }

  // ----- places

  lemma {:induction false} Multiple(x: nat, b: nat)
    requires b % CLUSTER == 0
    ensures x * b % CLUSTER == 0
  {
    if x > 0 {
      Multiple(x - 1, b);
      assert x * b == (x - 1) * b + b;
    }
  }

  lemma BlockOf(g: Image, s: nat)
    requires g.Valid() && s < |g.sectors|
    ensures s / g.blockSize * g.blockSize <= s < s / g.blockSize * g.blockSize + g.blockSize
    ensures g.HasBlock(s / g.blockSize)
  {
    var b, n := g.blockSize, |g.sectors|;
    var d, e := s / b, n / b;
    assert s == d * b + s % b;
    assert n == e * b;
    InOrder(d + 1, e, b) by {
      assert (d + 1) * b == d * b + b;
    }
    Monotone(d + 1, e, b);
    assert (d + 1) * b == d * b + b;
  }

  /** A cluster lies inside the block of each of its sectors, at the offset the code computes. */
  lemma ClusterInBlock(g: Image, s: nat)
    requires g.Valid() && s < |g.sectors|
    ensures var first := s / CLUSTER * CLUSTER; var num := s / g.blockSize;
            && num * g.blockSize <= first && first + CLUSTER <= num * g.blockSize + g.blockSize
            && first % g.blockSize == first - num * g.blockSize
  {
    BlockOf(g, s);
    var b, first, num := g.blockSize, s / CLUSTER * CLUSTER, s / g.blockSize;
    Multiple(num, b);
    assert num * b <= first && first + CLUSTER <= num * b + b;
    Unique(num, b, first);
  }

  // ----- the flat array of sectors

  predicate HasClusters(g: Image, cl: Clusters) {
    |cl| * CLUSTER == |g.sectors| && forall c :: 0 <= c < |cl| && cl[c].Some? ==> |cl[c].value| == CLUSTER
  }

  predicate Written(cl: Clusters, s: nat) {
    s / CLUSTER < |cl| && cl[s / CLUSTER].Some?
  }

  /** The value of a sector: what was last written, or the sector of the image. */
  function At(g: Image, cl: Clusters, s: nat): Sector
    requires HasClusters(g, cl) && s < |g.sectors|
  {
    if Written(cl, s) then cl[s / CLUSTER].value[s % CLUSTER] else g.sectors[s]
  }

  function Flat(g: Image, cl: Clusters): (r: seq<Sector>)
    requires HasClusters(g, cl)
    ensures |r| == |g.sectors|
  {
    seq(|g.sectors|, s requires 0 <= s < |g.sectors| => At(g, cl, s))
  }

  function Over(a: seq<Sector>, s: nat, data: seq<Sector>): (r: seq<Sector>)
    requires s + |data| <= |a|
    ensures |r| == |a|
  {
    a[..s] + data + a[s + |data|..]
  }

  predicate Touched(c: nat, s: nat, n: nat) {
    0 < n && s < c * CLUSTER + CLUSTER && c * CLUSTER < s + n
  }

  function PatchedCluster(g: Image, cl: Clusters, s: nat, data: seq<Sector>, c: nat): (r: seq<Sector>)
    requires HasClusters(g, cl) && s + |data| <= |g.sectors| && c < |cl|
    ensures |r| == CLUSTER
  {
    seq(CLUSTER, i requires 0 <= i < CLUSTER =>
      if s <= c * CLUSTER + i < s + |data| then data[c * CLUSTER + i - s] else At(g, cl, c * CLUSTER + i))
  }

  /** The clusters after a write: those it touches are allocated and hold it, the others are as they were. */
  function Patched(g: Image, cl: Clusters, s: nat, data: seq<Sector>): (r: Clusters)
    requires HasClusters(g, cl) && s + |data| <= |g.sectors|
    ensures HasClusters(g, r)
  {
    seq(|cl|, c requires 0 <= c < |cl| =>
      if Touched(c, s, |data|) then Some(PatchedCluster(g, cl, s, data, c)) else cl[c])
  }

  /** A write changes exactly its sectors. */
  lemma PatchedIsOver(g: Image, cl: Clusters, s: nat, data: seq<Sector>)
    requires HasClusters(g, cl) && s + |data| <= |g.sectors|
    ensures Flat(g, Patched(g, cl, s, data)) == Over(Flat(g, cl), s, data)
  {
    var now := Patched(g, cl, s, data);
    forall k | 0 <= k < |g.sectors| ensures Flat(g, now)[k] == Over(Flat(g, cl), s, data)[k] {
      PatchedAt(g, cl, s, data, k);
    }
  }

  lemma PatchedAt(g: Image, cl: Clusters, s: nat, data: seq<Sector>, k: nat)
    requires HasClusters(g, cl) && s + |data| <= |g.sectors| && k < |g.sectors|
    ensures At(g, Patched(g, cl, s, data), k) == if s <= k < s + |data| then data[k - s] else At(g, cl, k)
  {
    var c := k / CLUSTER;
    assert c * CLUSTER + k % CLUSTER == k;
  }

  lemma PatchNothing(g: Image, cl: Clusters, s: nat)
    requires HasClusters(g, cl) && s <= |g.sectors|
    ensures Patched(g, cl, s, []) == cl
  {
  }

  /** A cluster as it is allocated, with the sectors of the image. */
  function FreshCluster(g: Image, c: nat): (r: seq<Sector>)
    requires c * CLUSTER + CLUSTER <= |g.sectors|
    ensures |r| == CLUSTER
  {
    g.sectors[c * CLUSTER..c * CLUSTER + CLUSTER]
  }

  /** `now` holds what is written so far; the cluster of the next sector may already be allocated. */
  ghost predicate WrittenSoFar(g: Image, cl: Clusters, s: nat, data: seq<Sector>, now: Clusters)
    requires HasClusters(g, cl) && s + |data| <= |g.sectors|
  {
    var c := (s + |data|) / CLUSTER;
    now == Patched(g, cl, s, data) ||
    (c < |cl| && !Touched(c, s, |data|) && cl[c].None? && now == Patched(g, cl, s, data)[c := Some(FreshCluster(g, c))])
  }

  lemma Allocate(g: Image, cl: Clusters, s: nat, data: seq<Sector>, now: Clusters)
    requires HasClusters(g, cl) && s + |data| < |g.sectors| && WrittenSoFar(g, cl, s, data, now)
    requires !Written(now, s + |data|)
    ensures (s + |data|) / CLUSTER * CLUSTER + CLUSTER <= |g.sectors|
    ensures var c := (s + |data|) / CLUSTER;
            c < |now| && WrittenSoFar(g, cl, s, data, now[c := Some(FreshCluster(g, c))])
  {
  }

  /** file_buffer_write on a cluster */
  function ClusterWritten(v: seq<Sector>, o: nat, more: seq<Sector>): (r: seq<Sector>)
    requires o + |more| <= |v|
    ensures |r| == |v|
  {
    v[..o] + more + v[o + |more|..]
  }

  lemma PatchMore(g: Image, cl: Clusters, s: nat, data: seq<Sector>, now: Clusters, more: seq<Sector>)
    requires HasClusters(g, cl) && s + |data| + |more| <= |g.sectors| && more != [] && WrittenSoFar(g, cl, s, data, now)
    requires Written(now, s + |data|) && (s + |data|) % CLUSTER + |more| <= CLUSTER
    ensures HasClusters(g, now)
    ensures var c := (s + |data|) / CLUSTER;
            now[c := Some(ClusterWritten(now[c].value, (s + |data|) % CLUSTER, more))] == Patched(g, cl, s, data + more)
  {
    var p := s + |data|;
    var c, o := p / CLUSTER, p % CLUSTER;
    assert c * CLUSTER + o == p;
    var next := now[c := Some(ClusterWritten(now[c].value, o, more))];
    var goal := Patched(g, cl, s, data + more);
    forall e | 0 <= e < |cl| ensures next[e] == goal[e] {
      if e == c {
        PatchCluster(g, cl, s, data, now, more);
      } else {
        PatchElsewhere(g, cl, s, data, more, e);
        assert now[e] == Patched(g, cl, s, data)[e];
      }
    }
  }

  lemma PatchElsewhere(g: Image, cl: Clusters, s: nat, data: seq<Sector>, more: seq<Sector>, e: nat)
    requires HasClusters(g, cl) && s + |data| + |more| <= |g.sectors| && more != [] && e < |cl|
    requires (s + |data|) % CLUSTER + |more| <= CLUSTER && e != (s + |data|) / CLUSTER
    ensures Patched(g, cl, s, data + more)[e] == Patched(g, cl, s, data)[e]
  {
    assert Touched(e, s, |data|) <==> Touched(e, s, |data + more|);
    if Touched(e, s, |data|) {
      var a, b := PatchedCluster(g, cl, s, data, e), PatchedCluster(g, cl, s, data + more, e);
      forall i | 0 <= i < CLUSTER ensures a[i] == b[i] {
      }
      assert a == b;
    }
  }

  lemma SoFarAt(g: Image, cl: Clusters, s: nat, data: seq<Sector>, now: Clusters, i: nat)
    requires HasClusters(g, cl) && s + |data| < |g.sectors| && WrittenSoFar(g, cl, s, data, now)
    requires Written(now, s + |data|) && i < CLUSTER
    ensures var c := (s + |data|) / CLUSTER; var k := c * CLUSTER + i;
            && c < |now| && now[c].Some? && |now[c].value| == CLUSTER && k < |g.sectors|
            && now[c].value[i] == if s <= k < s + |data| then data[k - s] else At(g, cl, k)
  {
    var p := s + |data|;
    var c := p / CLUSTER;
    var k := c * CLUSTER + i;
    assert c * CLUSTER + p % CLUSTER == p;
    assert k / CLUSTER == c && k % CLUSTER == i;
    if now == Patched(g, cl, s, data) {
      PatchedAt(g, cl, s, data, k);
      hide Patched, Touched;
    } else {
      assert now[c] == Some(FreshCluster(g, c)) && !(s <= k < p);
    }
  }

  lemma Spliced(v: seq<Sector>, o: nat, more: seq<Sector>, b: seq<Sector>)
    requires o + |more| <= |v| == |b|
    requires forall i :: 0 <= i < |b| ==> b[i] == if o <= i < o + |more| then more[i - o] else v[i]
    ensures b == ClusterWritten(v, o, more)
  {
  }

  lemma PatchedClusterMore(g: Image, cl: Clusters, s: nat, data: seq<Sector>, more: seq<Sector>, c: nat, i: nat)
    requires HasClusters(g, cl) && s + |data| + |more| <= |g.sectors| && c < |cl| && i < CLUSTER
    ensures var k := c * CLUSTER + i; var p := s + |data|;
            PatchedCluster(g, cl, s, data + more, c)[i] ==
            if s <= k < p then data[k - s] else if p <= k < p + |more| then more[k - p] else At(g, cl, k)
  {
    hide At;
  }

  lemma PatchCluster(g: Image, cl: Clusters, s: nat, data: seq<Sector>, now: Clusters, more: seq<Sector>)
    requires HasClusters(g, cl) && s + |data| + |more| <= |g.sectors| && more != [] && WrittenSoFar(g, cl, s, data, now)
    requires Written(now, s + |data|) && (s + |data|) % CLUSTER + |more| <= CLUSTER
    ensures var c := (s + |data|) / CLUSTER;
            && c < |cl| && now[c].Some? && |now[c].value| == CLUSTER
            && Patched(g, cl, s, data + more)[c] == Some(ClusterWritten(now[c].value, (s + |data|) % CLUSTER, more))
  {
    var p := s + |data|;
    var c, o := p / CLUSTER, p % CLUSTER;
    assert c * CLUSTER + o == p && Touched(c, s, |data + more|);
    SoFarAt(g, cl, s, data, now, 0);
    hide WrittenSoFar, At, HasClusters, PatchedCluster, ClusterWritten;
    var v := now[c].value;
    var b := PatchedCluster(g, cl, s, data + more, c);
    forall i | 0 <= i < CLUSTER ensures b[i] == if o <= i < o + |more| then more[i - o] else v[i] {
      SoFarAt(g, cl, s, data, now, i);
      PatchedClusterMore(g, cl, s, data, more, c, i);
    }
    Spliced(v, o, more, b);
  }

  // ----- reading

  /** How far one turn of the loop reads: to the end of the cluster, or to the end of the block. */
  function RunLength(g: Image, cl: Clusters, s: nat, n: nat): (m: nat)
    requires g.Valid() && 0 < n
    ensures 0 < m <= n
  {
    var left := if Written(cl, s) then CLUSTER - s % CLUSTER else g.blockSize - s % g.blockSize;
    if n < left then n else left
  }

  /** What a read delivers. */
  function ReadRun(g: Image, cl: Clusters, s: nat, n: nat): (r: seq<Sector>)
    requires g.Valid() && HasClusters(g, cl) && s + n <= |g.sectors|
    ensures |r| == n
    decreases n
  {
    if n == 0 then []
    else
      var m := RunLength(g, cl, s, n);
      Turn(g, cl, s, m) + ReadRun(g, cl, s + m, n - m)
  }

  /** What one turn of the loop delivers. */
  function Turn(g: Image, cl: Clusters, s: nat, m: nat): (r: seq<Sector>)
    requires HasClusters(g, cl) && s + m <= |g.sectors| && (Written(cl, s) ==> s % CLUSTER + m <= CLUSTER)
    ensures |r| == m
  {
    if Written(cl, s) then cl[s / CLUSTER].value[s % CLUSTER..s % CLUSTER + m] else g.sectors[s..s + m]
  }

  /** A written sector that a read starting at `from` takes from the image, because the read came from a cluster of the
      same block that was not written. */
  ghost predicate Stale(g: Image, cl: Clusters, from: nat, k: nat)
    requires g.Valid()
  {
    Written(cl, k) && exists j {:trigger Written(cl, j)} ::
      from <= j < k && j / g.blockSize == k / g.blockSize && !Written(cl, j)
  }

  lemma SameBlock(g: Image, s: nat, k: nat)
    requires g.Valid() && s < |g.sectors| && s <= k
    ensures k / g.blockSize == s / g.blockSize <==> k < s + (g.blockSize - s % g.blockSize)
  {
    BlockOf(g, s);
    var b, d := g.blockSize, s / g.blockSize;
    Unique(d, b, s);
    if k < d * b + b {
      Unique(d, b, k);
    } else {
      assert k == k / b * b + k % b;
    }
  }

  /** Exactly what a read delivers, sector by sector. */
  lemma {:induction false} ReadRunIs(g: Image, cl: Clusters, s: nat, n: nat, k: nat)
    requires g.Valid() && HasClusters(g, cl) && s + n <= |g.sectors| && s <= k < s + n
    ensures ReadRun(g, cl, s, n)[k - s] == if Stale(g, cl, s, k) then g.sectors[k] else At(g, cl, k)
    decreases n
  {
    hide *;
    var m := RunLength(g, cl, s, n);
    if s + m <= k {
      ReadRunIs(g, cl, s + m, n - m, k);
      StaleLater(g, cl, s, n, k);
      AfterTurn(g, cl, s, n, k);
    } else {
      InTurn(g, cl, s, n, k);
    }
  }

  lemma AfterTurn(g: Image, cl: Clusters, s: nat, n: nat, k: nat)
    requires g.Valid() && HasClusters(g, cl) && s + n <= |g.sectors| && 0 < n && s + RunLength(g, cl, s, n) <= k < s + n
    ensures var m := RunLength(g, cl, s, n); ReadRun(g, cl, s, n)[k - s] == ReadRun(g, cl, s + m, n - m)[k - (s + m)]
  {
    hide HasClusters, Image.Valid, Turn;
  }

  lemma InTurn(g: Image, cl: Clusters, s: nat, n: nat, k: nat)
    requires g.Valid() && HasClusters(g, cl) && s + n <= |g.sectors| && 0 < n && s <= k < s + RunLength(g, cl, s, n)
    ensures ReadRun(g, cl, s, n)[k - s] == if Stale(g, cl, s, k) then g.sectors[k] else At(g, cl, k)
  {
    TurnAt(g, cl, s, n, k);
    if Written(cl, s) {
      InCluster(g, cl, s, n, k);
    } else {
      InBlock(g, cl, s, n, k);
    }
    hide Stale, RunLength, ReadRun;
  }

  lemma TurnAt(g: Image, cl: Clusters, s: nat, n: nat, k: nat)
    requires g.Valid() && HasClusters(g, cl) && s + n <= |g.sectors| && 0 < n && s <= k < s + RunLength(g, cl, s, n)
    ensures ReadRun(g, cl, s, n)[k - s] == Turn(g, cl, s, RunLength(g, cl, s, n))[k - s]
  {
    hide Turn, HasClusters, Image.Valid;
  }

  lemma InBlock(g: Image, cl: Clusters, s: nat, n: nat, k: nat)
    requires g.Valid() && HasClusters(g, cl) && s + n <= |g.sectors| && 0 < n
    requires !Written(cl, s) && s <= k < s + RunLength(g, cl, s, n)
    ensures Stale(g, cl, s, k) <==> Written(cl, k)
  {
    SameBlock(g, s, k);
  }

  lemma InCluster(g: Image, cl: Clusters, s: nat, n: nat, k: nat)
    requires g.Valid() && HasClusters(g, cl) && s + n <= |g.sectors| && 0 < n
    requires Written(cl, s) && s <= k < s + RunLength(g, cl, s, n)
    ensures k / CLUSTER == s / CLUSTER && k % CLUSTER == s % CLUSTER + (k - s) && Written(cl, k) && !Stale(g, cl, s, k)
  {
    assert forall j :: s <= j <= k ==> j / CLUSTER == s / CLUSTER;
  }

  lemma StaleLater(g: Image, cl: Clusters, s: nat, n: nat, k: nat)
    requires g.Valid() && HasClusters(g, cl) && s + n <= |g.sectors| && 0 < n && s + RunLength(g, cl, s, n) <= k < s + n
    ensures Stale(g, cl, s, k) <==> Stale(g, cl, s + RunLength(g, cl, s, n), k)
  {
    var m := RunLength(g, cl, s, n);
    forall j | s <= j < s + m && !Written(cl, j) ensures j / g.blockSize != k / g.blockSize {
      if Written(cl, s) {
        InCluster(g, cl, s, n, j);
        assert false;
      } else {
        SameBlock(g, s, j);
        SameBlock(g, s, k);
      }
    }
  }

  ghost predicate NoneStale(g: Image, cl: Clusters, s: nat, n: nat)
    requires g.Valid()
  {
    forall k {:trigger Stale(g, cl, s, k)} :: s <= k < s + n ==> !Stale(g, cl, s, k)
  }

  /** A read delivers the flat array exactly when the image still agrees with what was written to its stale sectors. */
  lemma ReadIsFlatIff(g: Image, cl: Clusters, s: nat, n: nat)
    requires g.Valid() && HasClusters(g, cl) && s + n <= |g.sectors|
    ensures ReadRun(g, cl, s, n) == Flat(g, cl)[s..s + n] <==>
            forall k {:trigger Stale(g, cl, s, k)} :: s <= k < s + n && Stale(g, cl, s, k) ==>
              g.sectors[k] == At(g, cl, k)
    ensures NoneStale(g, cl, s, n) ==> ReadRun(g, cl, s, n) == Flat(g, cl)[s..s + n]
  {
    hide *;
    var r, f := ReadRun(g, cl, s, n), Flat(g, cl)[s..s + n];
    forall k | s <= k < s + n
      ensures r[k - s] == (if Stale(g, cl, s, k) then g.sectors[k] else At(g, cl, k)) && f[k - s] == At(g, cl, k)
    {
      ReadRunIs(g, cl, s, n, k);
      FlatAt(g, cl, k);
    }
    if r == f {
      forall k | s <= k < s + n && Stale(g, cl, s, k) ensures g.sectors[k] == At(g, cl, k) {
        assert r[k - s] == f[k - s];
      }
    } else {
      var i :| 0 <= i < n && r[i] != f[i];
      assert Stale(g, cl, s, s + i);
    }
    if NoneStale(g, cl, s, n) {
      NoneStaleMeans(g, cl, s, n);
    }
  }

  lemma NoneStaleMeans(g: Image, cl: Clusters, s: nat, n: nat)
    requires g.Valid() && NoneStale(g, cl, s, n)
    ensures forall k {:trigger Stale(g, cl, s, k)} :: s <= k < s + n ==> !Stale(g, cl, s, k)
  {
  }

  lemma FlatAt(g: Image, cl: Clusters, k: nat)
    requires HasClusters(g, cl) && k < |g.sectors|
    ensures Flat(g, cl)[k] == At(g, cl, k)
  {
  }

  /** A block of two clusters, the second one written: a read of the whole block misses the write. */
  lemma StaleExample(g: Image, cl: Clusters, v: seq<Sector>)
    requires g.blockSize == 16 && |g.sectors| == 16 && |v| == CLUSTER && cl == [None, Some(v)]
    ensures g.Valid() && HasClusters(g, cl)
    ensures ReadRun(g, cl, 0, 16) == g.sectors && Flat(g, cl) == g.sectors[..8] + v
  {
    assert RunLength(g, cl, 0, 16) == 16;
    assert g.sectors[0..16] == g.sectors;
    assert Flat(g, cl) == g.sectors[..8] + v;
  }
}
