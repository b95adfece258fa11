/** Whole runs of the block device: requests one after the other, with block loads that complete in any order. */
module BlockRuns {
  import opened BlockImage
  import opened BlockCache
  import opened BlockNet

  datatype Request = Read(start: nat, count: nat) | Write(start: nat, data: seq<Sector>)

  predicate InRange(g: Image, r: Request) {
    match r
    case Read(start, count) => start + count <= |g.sectors|
    case Write(start, data) => start + |data| <= |g.sectors|
  }

  predicate AllInRange(g: Image, rs: seq<Request>) {
    forall r :: r in rs ==> InRange(g, r)
  }

  // ----- one request

  function AfterOne(g: Image, cl: Clusters, r: Request): (now: Clusters)
    requires HasClusters(g, cl) && InRange(g, r)
    ensures HasClusters(g, now)
  {
    if r.Write? then Patched(g, cl, r.start, r.data) else cl
  }

  function ReplyOne(g: Image, cl: Clusters, r: Request): seq<Sector>
    requires g.Valid() && HasClusters(g, cl) && InRange(g, r)
  {
    if r.Write? then [] else ReadRun(g, cl, r.start, r.count)
  }

  // ----- a sequence of requests, the last one at the end

  function After(g: Image, cl: Clusters, rs: seq<Request>): (now: Clusters)
    requires HasClusters(g, cl) && AllInRange(g, rs)
    ensures HasClusters(g, now)
  {
    if rs == [] then cl else AfterOne(g, After(g, cl, rs[..|rs| - 1]), rs[|rs| - 1])
  }

  function Replies(g: Image, cl: Clusters, rs: seq<Request>): (out: seq<seq<Sector>>)
    requires g.Valid() && HasClusters(g, cl) && AllInRange(g, rs)
    ensures |out| == |rs|
  {
    if rs == [] then []
    else Replies(g, cl, rs[..|rs| - 1]) + [ReplyOne(g, After(g, cl, rs[..|rs| - 1]), rs[|rs| - 1])]
  }

  // ----- the flat array

  function FlatAfter(a: seq<Sector>, rs: seq<Request>): (b: seq<Sector>)
    requires forall r :: r in rs && r.Write? ==> r.start + |r.data| <= |a|
    ensures |b| == |a|
  {
    if rs == [] then a
    else
      var b := FlatAfter(a, rs[..|rs| - 1]);
      var r := rs[|rs| - 1];
      if r.Write? then Over(b, r.start, r.data) else b
  }

  /** The request is not a read that takes a stale sector. */
  ghost predicate Straight(g: Image, cl: Clusters, r: Request)
    requires g.Valid()
  {
    r.Read? ==> NoneStale(g, cl, r.start, r.count)
  }

  /** Whatever was requested, the clusters stand for the flat array with the writes made to it; and the reply to each
      request is the slice of the flat array at that time, unless the request takes a stale sector. */
  lemma {:induction false} RequestsOnFlat(g: Image, cl: Clusters, rs: seq<Request>)
    requires g.Valid() && HasClusters(g, cl) && AllInRange(g, rs)
    ensures forall r :: r in rs && r.Write? ==> r.start + |r.data| <= |Flat(g, cl)|
    ensures Flat(g, After(g, cl, rs)) == FlatAfter(Flat(g, cl), rs)
  {
    hide Flat, Patched;
    if rs != [] {
      var front, r := rs[..|rs| - 1], rs[|rs| - 1];
      RequestsOnFlat(g, cl, front);
      assert r in rs;
      if r.Write? {
        PatchedIsOver(g, After(g, cl, front), r.start, r.data);
      }
    }
  }

  lemma {:induction false} ReplyOnFlat(g: Image, cl: Clusters, rs: seq<Request>, i: nat)
    requires g.Valid() && HasClusters(g, cl) && AllInRange(g, rs) && i < |rs| && rs[i].Read?
    requires Straight(g, After(g, cl, rs[..i]), rs[i])
    ensures rs[i].start + rs[i].count <= |g.sectors|
    ensures forall r :: r in rs[..i] && r.Write? ==> r.start + |r.data| <= |Flat(g, cl)|
    ensures Replies(g, cl, rs)[i] == FlatAfter(Flat(g, cl), rs[..i])[rs[i].start..rs[i].start + rs[i].count]
    decreases |rs|
  {
    hide Flat, ReadRun, NoneStale, Patched;
    var front := rs[..|rs| - 1];
    assert rs[i] in rs && front[..i] == rs[..i];
    if i < |rs| - 1 {
      ReplyOnFlat(g, cl, front, i);
    } else {
      RequestsOnFlat(g, cl, front);
      ReadIsFlatIff(g, After(g, cl, front), rs[i].start, rs[i].count);
    }
  }

  // ----- the device

  /** Loads of blocks complete in the order of `loads` from place `at`, until the request is done. */
  method Await(dev: Device, g: Image, calls: nat, loads: seq<nat>, at: nat) returns (next: nat)
    requires dev.Valid() && dev.g == g && g.Valid() && at <= |loads| && forall n :: n in loads ==> g.HasBlock(n)
    requires dev.busy && dev.completions == calls && dev.sectorCount <= dev.ioBuf.Length
    modifies dev, dev.ioBuf
    ensures dev.Valid() && dev.SameRequest() && at <= next <= |loads|
    ensures dev.busy <==> dev.completions == calls
  {
    hide Image.Valid, Image.HasBlock, Image.BlockData, Device.Valid, Loading;
    next := at;
    while dev.completions == calls && next < |loads|
      invariant dev.Valid() && dev.SameRequest() && at <= next <= |loads|
      invariant dev.busy <==> dev.completions == calls
      decreases |loads| - next
    {
      if Loading(dev.cached, loads[next]) {
        dev.UpdateBlock(loads[next], g.BlockData(loads[next]));
      }
      next := next + 1;
    }
  }

  /** Loads complete while no request waits. */
  method CompleteIdle(dev: Device, g: Image, nums: seq<nat>)
    requires dev.Valid() && !dev.busy && dev.g == g && g.Valid() && forall n :: n in nums ==> g.HasBlock(n)
    modifies dev, dev.ioBuf
    ensures dev.Valid() && !dev.busy && dev.SameRequest() && dev.clusters == old(dev.clusters)
  {
    hide Image.Valid, Image.HasBlock, Image.BlockData, Device.Valid, Loading, Patched, ReadRun, HasClusters;
    dev.Done();
    var i := 0;
    while i < |nums|
      invariant i <= |nums| && dev.Valid() && !dev.busy && dev.SameRequest() && dev.clusters == old(dev.clusters)
    {
      if Loading(dev.cached, nums[i]) {
        dev.UpdateBlock(nums[i], g.BlockData(nums[i]));
      }
      i := i + 1;
    }
  }

  /** One request; `done` tells whether it finished. */
  method ServeOne(dev: Device, g: Image, r: Request, loads: seq<nat>, at: nat)
    returns (done: bool, reply: seq<Sector>, next: nat)
    requires dev.Valid() && !dev.busy && dev.g == g && InRange(g, r) && at <= |loads|
    requires forall n :: n in loads ==> g.HasBlock(n)
    modifies dev
    ensures dev.Valid() && dev.g == g && at <= next <= |loads| && done == !dev.busy && fresh(dev.ioBuf)
    ensures done ==> dev.clusters == AfterOne(g, old(dev.clusters), r) && reply == ReplyOne(g, old(dev.clusters), r)
  {
    hide Image.Valid, Image.HasBlock, Image.BlockData, Device.Valid, Loading, Patched, ReadRun, HasClusters;
    dev.Idle();
    var count := if r.Write? then |r.data| else r.count;
    var buf := new Sector[count](i requires 0 <= i < count => if r.Write? then r.data[i] else []);
    assert r.Write? ==> buf[..] == r.data;
    var calls := dev.completions;
    var ret := dev.Submit(r.Write?, r.start, buf, count);
    next := at;
    if ret == 1 {
      next := Await(dev, g, calls, loads, at);
    }
    done := ret == 0 || dev.completions != calls;
    reply := [];
    if done {
      dev.Done();
      assert buf[..count] == buf[..];
      if !r.Write? {
        reply := buf[..];
      }
    }
  }

  /** Every run: the finished requests took effect one after the other, with the replies of that order, however the
      loads of the blocks were ordered, whatever was evicted, and whichever loads completed while the device was
      idle. */
  method Serve(dev: Device, g: Image, rs: seq<Request>, loads: seq<nat>, idle: seq<seq<nat>>)
    returns (n: nat, out: seq<seq<Sector>>)
    requires dev.Valid() && !dev.busy && dev.g == g && AllInRange(g, rs) && |idle| == |rs|
    requires forall b :: b in loads ==> g.HasBlock(b)
    requires forall i, b :: 0 <= i < |idle| && b in idle[i] ==> g.HasBlock(b)
    modifies dev, dev.ioBuf
    ensures n <= |rs| && dev.Valid() && g.Valid() && HasClusters(g, old(dev.clusters))
    ensures out == Replies(g, old(dev.clusters), rs[..n])
    ensures n == |rs| ==> dev.clusters == After(g, old(dev.clusters), rs)
  {
    dev.Idle();
    ghost var cl := dev.clusters;
    n, out := 0, [];
    var at := 0;
    hide Image.HasBlock, Device.Valid, AfterOne, ReplyOne, HasClusters, InRange;
    while n < |rs|
      invariant n <= |rs| && dev.Valid() && !dev.busy && dev.g == g && at <= |loads|
      invariant dev.ioBuf == old(dev.ioBuf) || fresh(dev.ioBuf)
      invariant out == Replies(g, cl, rs[..n]) && dev.clusters == After(g, cl, rs[..n])
    {
      assert rs[n] in rs;
      CompleteIdle(dev, g, idle[n]);
      var done, reply, next := ServeOne(dev, g, rs[n], loads, at);
      if !done { return; }
      assert rs[..n + 1][..n] == rs[..n];
      out := out + [reply];
      n, at := n + 1, next;
    }
    assert rs[..n] == rs;
  }
}
