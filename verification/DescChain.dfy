/** Descriptor chains in guest memory (virtio.c: get_desc, get_desc_rw_size, memcpy_to_from_queue). */
module DescChain {
  const PAGE: nat := 4096
  const DESC: nat := 16

  datatype Desc = Desc(addr: nat, len: nat, write: bool, more: bool, next: nat)

  /** A little-endian number. */
  function Le(b: seq<bv8>): nat {
    if b == [] then 0 else (b[0] as nat) + 256 * Le(b[1..])
  }

  function DescOf(b: seq<bv8>): Desc
    requires |b| == DESC
  {
    var flags := Le(b[12..14]);
    Desc(Le(b[..8]), Le(b[8..12]), flags / 2 % 2 == 1, flags % 2 == 1, Le(b[14..16]))
  }

  /** Where the descriptors are: `num` of them from address `table` on. */
  datatype Table = Table(table: nat, num: nat) {
    predicate Fits(ram: seq<bv8>) {
      table + DESC * num <= |ram|
    }

    function Get(ram: seq<bv8>, i: nat): Desc
      requires Fits(ram) && i < num
    {
      assert DESC * i + DESC <= DESC * num;
      DescOf(ram[table + DESC * i..table + DESC * i + DESC])
    }

    predicate Holds(p: nat) {
      table <= p < table + DESC * num
    }
  }

  /** The descriptors that follow one another from number `i`; that the list ends says that the chain is acyclic. */
  ghost predicate Chain(t: Table, ram: seq<bv8>, i: nat, ds: seq<Desc>)
    decreases |ds|
  {
    && ds != [] && t.Fits(ram) && i < t.num && ds[0] == t.Get(ram, i)
    && if |ds| == 1 then !ds[0].more else ds[0].more && Chain(t, ram, ds[0].next, ds[1..])
  }

  lemma ChainNext(t: Table, ram: seq<bv8>, i: nat, ds: seq<Desc>)
    requires Chain(t, ram, i, ds)
    ensures ds != [] && t.Fits(ram) && i < t.num && ds[0] == t.Get(ram, i)
    ensures if ds[0].more then |ds| > 1 && Chain(t, ram, ds[0].next, ds[1..]) && ds[0].next < t.num else ds[1..] == []
  {
    hide Table.Get;
  }

  // ----- what a chain means: the addresses of its two buffers

  /** The descriptors in front that are of one kind. */
  function Run(ds: seq<Desc>, write: bool): seq<Desc> {
    if ds == [] || ds[0].write != write then [] else [ds[0]] + Run(ds[1..], write)
  }

  function SkipReads(ds: seq<Desc>): seq<Desc> {
    if ds == [] || ds[0].write then ds else SkipReads(ds[1..])
  }

  function Addresses(a: nat, n: nat): (r: seq<nat>)
    ensures |r| == n && forall i :: 0 <= i < n ==> r[i] == a + i
  {
    seq(n, i => a + i)
  }

  function Places(ds: seq<Desc>): seq<nat> {
    if ds == [] then [] else Addresses(ds[0].addr, ds[0].len) + Places(ds[1..])
  }

  /** The buffer the device writes, or the one it reads. */
  function Buffer(ds: seq<Desc>, toQueue: bool): seq<nat> {
    Places(if toQueue then Run(SkipReads(ds), true) else Run(ds, false))
  }

  /** A chain has a read part and then a write part. */
  predicate WellFormed(ds: seq<Desc>) {
    SkipReads(ds) == Run(SkipReads(ds), true)
  }

  predicate InRam(ps: seq<nat>, ram: seq<bv8>) {
    forall i :: 0 <= i < |ps| ==> ps[i] < |ram|
  }

  function Gather(ram: seq<bv8>, ps: seq<nat>): (r: seq<bv8>)
    requires InRam(ps, ram)
    ensures |r| == |ps|
  {
    seq(|ps|, i requires 0 <= i < |ps| => ram[ps[i]])
  }

  /** The memory after bytes are stored one by one. */
  function Scatter(ram: seq<bv8>, ps: seq<nat>, data: seq<bv8>): (r: seq<bv8>)
    requires InRam(ps, ram) && |data| == |ps|
    ensures |r| == |ram|
  {
    if ps == [] then ram
    else Scatter(ram, ps[..|ps| - 1], data[..|data| - 1])[ps[|ps| - 1] := data[|data| - 1]]
  }

  predicate NoneTwice(ps: seq<nat>) {
    forall i, j :: 0 <= i < j < |ps| ==> ps[i] != ps[j]
  }

  /** Other places keep their bytes. */
  lemma {:induction false} ScatterElsewhere(ram: seq<bv8>, ps: seq<nat>, data: seq<bv8>, p: nat)
    requires InRam(ps, ram) && |data| == |ps| && p < |ram| && p !in ps
    ensures Scatter(ram, ps, data)[p] == ram[p]
  {
    if ps != [] {
      ScatterElsewhere(ram, ps[..|ps| - 1], data[..|data| - 1], p);
    }
  }

  /** What is stored in a buffer without overlaps is read back from it. */
  lemma {:induction false} GatherScattered(ram: seq<bv8>, ps: seq<nat>, data: seq<bv8>)
    requires InRam(ps, ram) && |data| == |ps| && NoneTwice(ps)
    ensures InRam(ps, Scatter(ram, ps, data)) && Gather(Scatter(ram, ps, data), ps) == data
  {
    if ps != [] {
      var n := |ps| - 1;
      GatherScattered(ram, ps[..n], data[..n]);
      var r := Scatter(ram, ps, data);
      forall i | 0 <= i < |ps| ensures r[ps[i]] == data[i] {
        if i < n {
          assert Gather(Scatter(ram, ps[..n], data[..n]), ps[..n])[i] == data[i];
        }
      }
    }
  }

  lemma {:induction false} ScatterMore(ram: seq<bv8>, ps: seq<nat>, qs: seq<nat>, data: seq<bv8>, more: seq<bv8>)
    requires InRam(ps, ram) && InRam(qs, ram) && |data| == |ps| && |more| == |qs|
    ensures Scatter(ram, ps + qs, data + more) == Scatter(Scatter(ram, ps, data), qs, more)
    decreases |qs|
  {
    if qs == [] {
      assert ps + qs == ps && data + more == data;
    } else {
      var n := |qs| - 1;
      ScatterMore(ram, ps, qs[..n], data, more[..n]);
      var all, bytes := ps + qs, data + more;
      assert all[..|all| - 1] == ps + qs[..n] && bytes[..|bytes| - 1] == data + more[..n];
      assert all[|all| - 1] == qs[n] && bytes[|bytes| - 1] == more[n];
    }
  }

  /** Bytes stored at consecutive addresses. */
  lemma {:induction false} ScatterRow(ram: seq<bv8>, a: nat, data: seq<bv8>)
    requires a + |data| <= |ram|
    ensures Scatter(ram, Addresses(a, |data|), data) == ram[..a] + data + ram[a + |data|..]
    decreases |data|
  {
    if data != [] {
      var n := |data| - 1;
      ScatterRow(ram, a, data[..n]);
      var ps := Addresses(a, |data|);
      assert ps[..n] == Addresses(a, n) && ps[|ps| - 1] == a + n;
    }
  }

  /** A chain does not change when the table keeps its bytes. */
  lemma {:induction false} ChainKept(t: Table, ram: seq<bv8>, now: seq<bv8>, i: nat, ds: seq<Desc>)
    requires Chain(t, ram, i, ds) && |now| == |ram|
    requires forall p :: 0 <= p < |ram| && t.Holds(p) ==> now[p] == ram[p]
    ensures Chain(t, now, i, ds)
    decreases |ds|
  {
    assert DESC * i + DESC <= DESC * t.num;
    var a := t.table + DESC * i;
    assert ram[a..a + DESC] == now[a..a + DESC];
    if |ds| > 1 {
      ChainKept(t, ram, now, ds[0].next, ds[1..]);
    }
  }
}
