/** The list of cached blocks of block_net.c, most recently used first. */
module BlockCache {
  import opened BlockImage

  /** CachedBlock; `data` is meaningless while the block is loading. */
  datatype Block = Block(num: nat, loaded: bool, data: seq<Sector>)

  /** Blocks are listed once, and the loaded ones hold what the server has. */
  ghost predicate CacheOk(g: Image, c: seq<Block>)
    requires g.Valid()
  {
    && (forall i, j :: 0 <= i < j < |c| ==> c[i].num != c[j].num)
    && (forall b :: b in c ==> g.HasBlock(b.num) && (b.loaded ==> b.data == g.BlockData(b.num)))
  }

  predicate Cached(c: seq<Block>, num: int) {
    exists b :: b in c && b.num == num
  }

  predicate Loading(c: seq<Block>, num: int) {
    exists b :: b in c && b.num == num && !b.loaded
  }

  /** Both lists have the same blocks loading. */
  ghost predicate SameLoading(c: seq<Block>, d: seq<Block>) {
    forall num: int :: Loading(c, num) <==> Loading(d, num)
  }

  // ----- a block that is found moves to the front

  function Front(c: seq<Block>, i: nat): (r: seq<Block>)
    requires i < |c|
    ensures |r| == |c|
  {
    [c[i]] + c[..i] + c[i + 1..]
  }

  lemma FrontHas(c: seq<Block>, i: nat, b: Block)
    requires i < |c|
    ensures b in Front(c, i) <==> b in c
  {
    assert c == c[..i] + [c[i]] + c[i + 1..];
  }

  lemma FrontKeeps(g: Image, c: seq<Block>, i: nat)
    requires g.Valid() && CacheOk(g, c) && i < |c|
    ensures CacheOk(g, Front(c, i)) && SameLoading(c, Front(c, i))
  {
    var r := Front(c, i);
    forall b ensures b in r <==> b in c { FrontHas(c, i, b); }
    forall x, y | 0 <= x < y < |r| ensures r[x].num != r[y].num {
      assert r[x] == c[if x == 0 then i else if x <= i then x - 1 else x];
      assert r[y] == c[if y <= i then y - 1 else y];
    }
  }

  // ----- room for a new block

  /** The blocks that are waiting for their data. */
  function Waiting(c: seq<Block>): (r: seq<Block>)
    ensures |r| <= |c| && forall b :: b in r ==> b in c && !b.loaded
  {
    if c == [] then []
    else if c[|c| - 1].loaded then Waiting(c[..|c| - 1])
    else Waiting(c[..|c| - 1]) + [c[|c| - 1]]
  }

  /** The loop from the back of a list of `n` blocks of which `c` are still to be looked at. */
  function Evict(c: seq<Block>, n: nat, max: nat): (r: seq<Block>) {
    if c == [] || n == 0 then []
    else
      var rest, last := c[..|c| - 1], c[|c| - 1];
      if !last.loaded then Evict(rest, n, max) + [last]
      else if n - 1 < max then rest
      else Evict(rest, n - 1, max)
  }

  function MadeRoom(c: seq<Block>, max: nat): seq<Block> {
    if |c| >= max then Evict(c, |c|, max) else c
  }

  /** All blocks up to a place, and after it only those that are waiting. */
  function Kept(c: seq<Block>, p: nat): seq<Block>
    requires p <= |c|
  {
    c[..p] + Waiting(c[p..])
  }

  lemma KeptMore(c: seq<Block>, p: nat)
    requires p < |c|
    ensures Kept(c, p) == Kept(c[..|c| - 1], p) + (if c[|c| - 1].loaded then [] else [c[|c| - 1]])
    ensures Kept(c[..|c| - 1], |c| - 1) == c[..|c| - 1]
  {
    assert c[p..][..|c| - p - 1] == c[..|c| - 1][p..];
    assert c[..p] == c[..|c| - 1][..p];
  }

  /** Only loaded blocks are dropped, the least recently used ones, and no more of them than it takes: all blocks are
      kept up to a place and no loaded one after it. */
  lemma {:induction false} EvictsTheLeastUsed(c: seq<Block>, n: nat, max: nat) returns (p: nat)
    requires 0 < max <= n && |c| <= n
    ensures p <= |c| && Evict(c, n, max) == Kept(c, p)
    ensures n - |c| + |Kept(c, p)| == max - 1 || (p == 0 && n - |c| + |Kept(c, p)| >= max)
  {
    if c == [] {
      return 0;
    }
    hide Kept;
    var rest, last := c[..|c| - 1], c[|c| - 1];
    if !last.loaded {
      p := EvictsTheLeastUsed(rest, n, max);
      KeptMore(c, p);
    } else if n - 1 < max {
      p := |c| - 1;
      KeptMore(c, p);
    } else {
      p := EvictsTheLeastUsed(rest, n - 1, max);
      KeptMore(c, p);
    }
  }

  lemma {:induction false} EvictHas(c: seq<Block>, n: nat, max: nat, b: Block)
    requires |c| <= n
    ensures b in Evict(c, n, max) ==> b in c
    ensures b in c && !b.loaded ==> b in Evict(c, n, max)
  {
    if c != [] {
      var rest, last := c[..|c| - 1], c[|c| - 1];
      assert c == rest + [last];
      if !last.loaded {
        EvictHas(rest, n, max, b);
      } else if n - 1 >= max {
        EvictHas(rest, n - 1, max, b);
      }
    }
  }

  ghost predicate Distinct(c: seq<Block>) {
    forall i, j :: 0 <= i < j < |c| ==> c[i].num != c[j].num
  }

  lemma {:induction false} EvictDistinct(c: seq<Block>, n: nat, max: nat)
    requires |c| <= n && Distinct(c)
    ensures Distinct(Evict(c, n, max))
  {
    if c != [] {
      var rest, last := c[..|c| - 1], c[|c| - 1];
      if !last.loaded {
        EvictDistinct(rest, n, max);
        forall b | b in Evict(rest, n, max) ensures b.num != last.num { EvictHas(rest, n, max, b); }
      } else if n - 1 >= max {
        EvictDistinct(rest, n - 1, max);
      }
    }
  }

  /** A new block in front of what is kept. */
  function Added(c: seq<Block>, num: nat, max: nat): seq<Block> {
    [Block(num, false, [])] + MadeRoom(c, max)
  }

  lemma AddedKeeps(g: Image, c: seq<Block>, num: nat, max: nat)
    requires g.Valid() && CacheOk(g, c) && g.HasBlock(num) && !Cached(c, num) && max > 0
    ensures CacheOk(g, Added(c, num, max))
    ensures forall k: int :: Loading(Added(c, num, max), k) <==> k == num || Loading(c, k)
  {
    var m, r := MadeRoom(c, max), Added(c, num, max);
    forall b ensures (b in m ==> b in c) && (b in c && !b.loaded ==> b in m) {
      EvictHas(c, |c|, max, b);
    }
    assert Distinct(m) by { assert Distinct(c); EvictDistinct(c, |c|, max); }
    assert r[0] == Block(num, false, []) && r[1..] == m;
    forall k: int ensures Loading(r, k) <==> k == num || Loading(c, k) {
      if k == num { assert r[0] in r; }
      if Loading(c, k) {
        var b :| b in c && b.num == k && !b.loaded;
        assert b in m && b in r;
      }
    }
  }

  // ----- a block arrives

  function Filled(c: seq<Block>, i: nat, data: seq<Sector>): (r: seq<Block>)
    requires i < |c|
    ensures |r| == |c|
  {
    c[i := c[i].(loaded := true, data := data)]
  }

  lemma FilledKeeps(g: Image, c: seq<Block>, i: nat)
    requires g.Valid() && CacheOk(g, c) && i < |c| && g.HasBlock(c[i].num)
    ensures CacheOk(g, Filled(c, i, g.BlockData(c[i].num)))
    ensures forall k: int :: Loading(Filled(c, i, g.BlockData(c[i].num)), k) <==> k != c[i].num && Loading(c, k)
  {
    var r := Filled(c, i, g.BlockData(c[i].num));
    assert forall x :: 0 <= x < |c| && x != i ==> r[x] == c[x];
    forall k: int ensures Loading(r, k) <==> k != c[i].num && Loading(c, k) {
      if Loading(r, k) {
        var b :| b in r && b.num == k && !b.loaded;
        var x :| 0 <= x < |r| && r[x] == b;
        assert x != i && c[x] in c;
      }
      if k != c[i].num && Loading(c, k) {
        var b :| b in c && b.num == k && !b.loaded;
        var x :| 0 <= x < |c| && c[x] == b;
        assert r[x] in r;
      }
    }
  }
}
