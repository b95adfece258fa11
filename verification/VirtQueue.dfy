/** Copying to and from the buffers of a descriptor chain (virtio.c: virtio_memcpy_from_ram, virtio_memcpy_to_ram,
    get_desc, get_desc_rw_size, memcpy_to_from_queue). */
module VirtQueue {
  import opened DescChain
  import opened Widths

  /** What is left of a buffer: `q` is the rest of `p`, with `offset` more to skip than there was when `skipped` were
      passed. */
  ghost predicate Rest(p: seq<nat>, skip: nat, q: seq<nat>, offset: nat) {
    |p| - skip == |q| - offset && (offset <= |q| ==> p[skip..] == q[offset..])
  }

  lemma RestStart(p: seq<nat>, skip: nat)
    ensures Rest(p, skip, p, skip)
  {
  }

  /** A whole descriptor is passed over. */
  lemma RestNext(p: seq<nat>, skip: nat, q: seq<nat>, offset: nat, n: nat)
    requires Rest(p, skip, q, offset) && n <= |q| && n <= offset
    ensures Rest(p, skip, q[n..], offset - n)
  {
    if offset <= |q| {
      assert q[n..][offset - n..] == q[offset..];
    }
  }

  /** Some bytes of a descriptor are copied. */
  lemma RestTaken(p: seq<nat>, skip: nat, q: seq<nat>, offset: nat, l: nat)
    requires Rest(p, skip, q, offset) && offset + l <= |q|
    ensures skip + l <= |p| && p[skip..skip + l] == q[offset..offset + l] && Rest(p, skip + l, q, offset + l)
  {
    assert p[skip..][..l] == q[offset..][..l];
    assert p[skip..][l..] == q[offset..][l..];
    assert p[skip..][..l] == p[skip..skip + l] && q[offset..][..l] == q[offset..offset + l];
    assert p[skip..][l..] == p[skip + l..] && q[offset..][l..] == q[offset + l..];
  }

  lemma RestOver(p: seq<nat>, skip: nat, q: seq<nat>, offset: nat)
    requires Rest(p, skip, q, offset)
    ensures skip < |p| <==> offset < |q|
    ensures |p| - skip == |q| - offset
  {
  }

  lemma NoBuffer(ds: seq<Desc>)
    requires SkipReads(ds) == []
    ensures Buffer(ds, true) == []
  {
  }

  lemma BufferIs(ds: seq<Desc>, toQueue: bool, rest: seq<Desc>)
    requires rest == if toQueue then SkipReads(ds) else ds
    ensures Buffer(ds, toQueue) == Left(rest, toQueue)
  {
  }

  /** The places of the descriptors that are left. */
  function Left(ds: seq<Desc>, w: bool): seq<nat> { Places(Run(ds, w)) }

  lemma LeftOfOther(ds: seq<Desc>, w: bool)
    requires ds == [] || ds[0].write != w
    ensures Left(ds, w) == []
  {
  }

  lemma LeftOfNext(ds: seq<Desc>, w: bool)
    requires ds != [] && ds[0].write == w
    ensures Left(ds, w) == Addresses(ds[0].addr, ds[0].len) + Left(ds[1..], w)
    ensures ds[0].len <= |Left(ds, w)| && Left(ds, w)[ds[0].len..] == Left(ds[1..], w)
  {
    var r := Run(ds, w);
    assert r[0] == ds[0] && r[1..] == Run(ds[1..], w);
    assert Places(r) == Addresses(ds[0].addr, ds[0].len) + Left(ds[1..], w);
  }

  /** The bytes of a descriptor are consecutive. */
  lemma LeftPiece(ds: seq<Desc>, w: bool, offset: nat, l: nat)
    requires ds != [] && ds[0].write == w && offset + l <= ds[0].len
    ensures offset + l <= |Left(ds, w)| && Left(ds, w)[offset..offset + l] == Addresses(ds[0].addr + offset, l)
  {
    LeftOfNext(ds, w);
    var a := Addresses(ds[0].addr, ds[0].len);
    hide Left, Run, Places;
    AddressesPart(ds[0].addr, ds[0].len, offset, l);
    assert Left(ds, w)[offset..offset + l] == a[offset..offset + l];
  }

  lemma AddressesPart(a: nat, n: nat, offset: nat, l: nat)
    requires offset + l <= n
    ensures Addresses(a, n)[offset..offset + l] == Addresses(a + offset, l)
  {
    var x, y := Addresses(a, n)[offset..offset + l], Addresses(a + offset, l);
    hide Addresses;
    assert forall i :: 0 <= i < l ==> x[i] == y[i];
    assert x == y;
  }

  lemma GatherRow(ram: seq<bv8>, a: nat, l: nat)
    requires a + l <= |ram|
    ensures Gather(ram, Addresses(a, l)) == ram[a..a + l]
  {
  }

  lemma NoBytes(ram: seq<bv8>, ps: seq<nat>, data: seq<bv8>)
    requires ps == [] && data == []
    ensures Scatter(ram, ps, data) == ram && Gather(ram, ps) == []
  {
  }

  lemma InRamRow(ram: seq<bv8>, a: nat, l: nat)
    requires InRam(Addresses(a, l), ram)
    ensures l > 0 ==> a + l <= |ram|
  {
    if l > 0 { assert Addresses(a, l)[l - 1] == a + l - 1; }
  }

  /** How much of a request lies in a buffer of `n` bytes. */
  function Amount(n: nat, offset: nat, count: nat): (m: nat)
    ensures m <= count && (m > 0 ==> offset + m <= n)
  {
    if n <= offset then 0 else if offset + count <= n then count else n - offset
  }

  function Slice(b: seq<nat>, offset: nat, n: nat): (ps: seq<nat>)
    requires n > 0 ==> offset + n <= |b|
    ensures |ps| == n
  {
    if n == 0 then [] else b[offset..offset + n]
  }

  /** `n` bytes are copied: into the buffer, whose other bytes stay, or out of it. */
  ghost predicate Copied(b: seq<nat>, offset: nat, n: nat, toQueue: bool, data: seq<bv8>, was: seq<bv8>, now: seq<bv8>,
                         out: seq<bv8>)
    requires InRam(b, was) && (n > 0 ==> offset + n <= |b|) && (toQueue ==> n <= |data|)
  {
    if toQueue then out == [] && now == Scatter(was, Slice(b, offset, n), data[..n])
    else now == was && out == Gather(was, Slice(b, offset, n))
  }

  lemma CopiedNone(b: seq<nat>, offset: nat, toQueue: bool, data: seq<bv8>, was: seq<bv8>)
    requires InRam(b, was)
    ensures Copied(b, offset, 0, toQueue, data, was, was, [])
  {
  }

  lemma CopiedMore(b: seq<nat>, offset: nat, n: nat, l: nat, toQueue: bool, data: seq<bv8>, was: seq<bv8>,
                   mid: seq<bv8>,
                   now: seq<bv8>, out: seq<bv8>, part: seq<bv8>, ps: seq<nat>)
    requires InRam(b, was) && InRam(b, mid) && offset + n + l <= |b| && (toQueue ==> n + l <= |data|)
    requires Copied(b, offset, n, toQueue, data, was, mid, out) && ps == b[offset + n..offset + n + l] && InRam(ps, mid)
    requires toQueue ==> part == [] && now == Scatter(mid, ps, data[n..n + l])
    requires !toQueue ==> now == mid && part == Gather(mid, ps)
    ensures Copied(b, offset, n + l, toQueue, data, was, now, out + part)
  {
    hide Scatter, Gather;
    SliceMore(b, offset, n, l);
    hide Slice;
    if toQueue {
      assert data[..n + l] == data[..n] + data[n..n + l];
      ScatterMore(was, Slice(b, offset, n), ps, data[..n], data[n..n + l]);
    } else {
      GatherMore(was, Slice(b, offset, n), ps);
    }
  }

  lemma SliceMore(b: seq<nat>, offset: nat, n: nat, l: nat)
    requires offset + n + l <= |b|
    ensures Slice(b, offset, n + l) == Slice(b, offset, n) + b[offset + n..offset + n + l]
  {
  }

  lemma GatherMore(ram: seq<bv8>, ps: seq<nat>, qs: seq<nat>)
    requires InRam(ps, ram) && InRam(qs, ram)
    ensures Gather(ram, ps + qs) == Gather(ram, ps) + Gather(ram, qs)
  {
  }

  lemma SliceIn(t: Table, ram: seq<bv8>, b: seq<nat>, i: nat, l: nat)
    requires i + l <= |b| && InRam(b, ram)
    ensures InRam(b[i..i + l], ram) && (Apart(t, b) ==> Apart(t, b[i..i + l]))
  {
  }

  /** The buffer is not stored over the table. */
  ghost predicate Apart(t: Table, b: seq<nat>) {
    forall i :: 0 <= i < |b| ==> !t.Holds(b[i])
  }

  lemma ChainAfter(t: Table, ram: seq<bv8>, ps: seq<nat>, data: seq<bv8>, i: nat, ds: seq<Desc>)
    requires InRam(ps, ram) && |data| == |ps| && Chain(t, ram, i, ds) && Apart(t, ps)
    ensures Chain(t, Scatter(ram, ps, data), i, ds)
  {
    hide Scatter, Chain;
    forall p | 0 <= p < |ram| && t.Holds(p) ensures Scatter(ram, ps, data)[p] == ram[p] {
      ScatterElsewhere(ram, ps, data, p);
    }
    ChainKept(t, ram, Scatter(ram, ps, data), i, ds);
  }

  /** How many bytes are left of a page. */
  function PageLeft(a: nat): (l: nat)
    ensures 0 < l
  {
    PAGE - a % PAGE
  }

  /** Memory with a row of bytes stored in it. */
  ghost predicate Stored(was: seq<bv8>, now: seq<bv8>, a: nat, row: seq<bv8>) {
    a + |row| <= |was| && now == was[..a] + row + was[a + |row|..]
  }

  ghost predicate StoredSoFar(was: seq<bv8>, now: seq<bv8>, a: nat, data: seq<bv8>, done: nat)
    requires done <= |data|
  {
    if done == 0 then now == was else Stored(was, now, a, data[..done])
  }

  lemma StoredNone(was: seq<bv8>, a: nat, data: seq<bv8>)
    ensures StoredSoFar(was, was, a, data, 0)
  {
  }

  lemma StoredAll(was: seq<bv8>, now: seq<bv8>, a: nat, data: seq<bv8>)
    requires StoredSoFar(was, now, a, data, |data|)
    ensures if data == [] then now == was else Stored(was, now, a, data) && a + |data| <= |was| == |now|
  {
    assert data[..|data|] == data;
  }

  /** What is stored when the end of memory is reached. */
  lemma StoredPart(was: seq<bv8>, now: seq<bv8>, a: nat, data: seq<bv8>, done: nat)
    requires done < |data| && StoredSoFar(was, now, a, data, done) && a + done >= |was|
    ensures |now| == |was| && (a >= |was| ==> now == was)
    ensures a < |was| ==> |was| - a <= |data| && Stored(was, now, a, data[..|was| - a])
    ensures a + |data| > |was|
  {
    if done > 0 { assert a + done == |was|; }
  }

  lemma StoredMore(was: seq<bv8>, before: seq<bv8>, now: seq<bv8>, a: nat, data: seq<bv8>, done: nat, l: nat)
    requires done + l <= |data| && 0 < l && StoredSoFar(was, before, a, data, done)
    requires Stored(before, now, a + done, data[done..done + l])
    ensures StoredSoFar(was, now, a, data, done + l)
  {
    assert data[..done + l] == data[..done] + data[done..done + l];
    if done > 0 {
      assert before[..a + done] == was[..a] + data[..done] && before[a + done..] == was[a + done..];
    }
  }

  /** The guest memory, from address 0 on, and a queue. */
  class Queue {
    const ram: array<bv8>
    var table: Table

    constructor (ram: array<bv8>, table: Table)
      ensures this.ram == ram && this.table == table
    {
      this.ram, this.table := ram, table;
    }

    ghost predicate Valid()
      reads this, ram
    {
      ram.Length % PAGE == 0 && table.Fits(ram[..])
    }

    /** virtio_memcpy_from_ram: page by page, until a page is not in memory. */
    method CopyFromRam(addr: nat, count: nat) returns (ok: bool, buf: seq<bv8>)
      requires ram.Length % PAGE == 0
      ensures ok <==> count == 0 || addr + count <= ram.Length
      ensures ok && count > 0 ==> buf == ram[addr..addr + count]
      ensures count == 0 ==> buf == []
    {
      buf := [];
      var a: nat, n: nat := addr, count;
      while n > 0
        invariant n <= count && a == addr + (count - n) && |buf| == count - n
        invariant n < count ==> a <= ram.Length && buf == ram[addr..a]
      {
        var l := PageLeft(a);
        if n < l {
          l := n;
        }
        if a >= ram.Length {
          return false, buf;
        }
        PageInRam(a, ram.Length);
        buf := buf + ram[a..a + l];
        a, n := a + l, n - l;
      }
      ok := true;
    }

    /** virtio_memcpy_to_ram */
    method CopyToRam(addr: nat, data: seq<bv8>) returns (ok: bool)
      requires ram.Length % PAGE == 0
      modifies ram
      ensures ok <==> data == [] || addr + |data| <= ram.Length
      ensures ok && data != [] ==> Stored(old(ram[..]), ram[..], addr, data)
      ensures data == [] || (!ok && addr >= ram.Length) ==> ram[..] == old(ram[..])
      ensures !ok && addr < ram.Length ==> Stored(old(ram[..]), ram[..], addr, data[..ram.Length - addr])
    {
      hide *;
      ghost var was := ram[..];
      var done := 0;
      StoredNone(was, addr, data);
      while done < |data|
        invariant done <= |data| && StoredSoFar(was, ram[..], addr, data, done)
      {
        if addr + done >= ram.Length {
          StoredPart(was, ram[..], addr, data, done);
          return false;
        }
        var l := StorePage(addr, data, done, was);
        done := done + l;
      }
      StoredAll(was, ram[..], addr, data);
      ok := true;
    }

    /** What goes into one page. */
    method StorePage(addr: nat, data: seq<bv8>, done: nat, ghost was: seq<bv8>) returns (l: nat)
      requires ram.Length % PAGE == 0 && done < |data| && addr + done < ram.Length
      requires StoredSoFar(was, ram[..], addr, data, done)
      modifies ram
      ensures 0 < l && done + l <= |data| && StoredSoFar(was, ram[..], addr, data, done + l)
    {
      hide *;
      l := PageLeft(addr + done);
      if |data| - done < l {
        l := |data| - done;
      }
      PageInRam(addr + done, ram.Length);
      ghost var before := ram[..];
      StoreRow(addr + done, data[done..done + l]);
      StoredMore(was, before, ram[..], addr, data, done, l);
    }

    method StoreRow(a: nat, row: seq<bv8>)
      requires a + |row| <= ram.Length
      modifies ram
      ensures Stored(old(ram[..]), ram[..], a, row)
    {
      ghost var was := ram[..];
      var k := 0;
      while k < |row|
        invariant k <= |row| && ram[..a + k] == was[..a] + row[..k] && ram[a + k..] == was[a + k..]
      {
        ram[a + k] := row[k];
        k := k + 1;
      }
    }

    /** get_desc */
    method GetDesc(i: nat) returns (d: Desc)
      requires Valid() && i < table.num
      ensures d == table.Get(ram[..], i)
    {
      assert DESC * i + DESC <= DESC * table.num;
      var ok, b := CopyFromRam(table.table + DESC * i, DESC);
      assert b == ram[..][table.table + DESC * i..table.table + DESC * i + DESC];
      d := DescOf(b);
    }

    /** The walk stands at descriptor `i`, and `rest` is the chain from there on. */
    ghost predicate At(i: nat, d: Desc, rest: seq<Desc>)
      reads this, ram
    {
      Chain(table, ram[..], i, rest) && d == rest[0]
    }

    method Start(i0: nat, ghost ds: seq<Desc>) returns (d: Desc)
      requires Valid() && Chain(table, ram[..], i0, ds)
      ensures At(i0, d, ds)
    {
      ChainNext(table, ram[..], i0, ds);
      hide Chain, Table.Get;
      d := GetDesc(i0);
    }

    method Next(i0: nat, d0: Desc, ghost rest: seq<Desc>) returns (i: nat, d: Desc)
      requires Valid() && At(i0, d0, rest) && d0.more
      ensures |rest| > 1 && At(i, d, rest[1..])
    {
      hide Chain, Table.Get;
      ChainNext(table, ram[..], i0, rest);
      i := d0.next;
      ChainNext(table, ram[..], i, rest[1..]);
      d := GetDesc(i);
    }

    lemma IsHead(i: nat, d: Desc, rest: seq<Desc>)
      requires At(i, d, rest)
      ensures rest != [] && d == rest[0] && (!d.more ==> rest[1..] == [])
    {
      ChainNext(table, ram[..], i, rest);
      hide Chain;
    }

    /** The first descriptor the device may write. */
    method FirstWrite(i0: nat, ghost ds: seq<Desc>) returns (found: bool, i: nat, d: Desc, ghost rest: seq<Desc>)
      requires Valid() && Chain(table, ram[..], i0, ds)
      ensures found <==> SkipReads(ds) != []
      ensures found ==> rest == SkipReads(ds) && At(i, d, rest)
    {
      hide At, Chain, Valid;
      i, rest := i0, ds;
      d := Start(i, ds);
      IsHead(i, d, rest);
      while !d.write
        invariant At(i, d, rest) && rest != [] && d == rest[0] && SkipReads(rest) == SkipReads(ds)
        decreases |rest|
      {
        IsHead(i, d, rest);
        if !d.more {
          assert SkipReads(rest[1..]) == [];
          return false, i, d, rest;
        }
        i, d := Next(i, d, rest);
        rest := rest[1..];
        IsHead(i, d, rest);
      }
      found := true;
    }

    /** The start of a buffer. */
    method StartOf(i0: nat, toQueue: bool, ghost ds: seq<Desc>)
      returns (found: bool, i: nat, d: Desc, ghost rest: seq<Desc>)
      requires Valid() && Chain(table, ram[..], i0, ds)
      ensures !found ==> Buffer(ds, toQueue) == [] && Front(ds, toQueue) == []
      ensures found ==> At(i, d, rest) && Buffer(ds, toQueue) == Left(rest, toQueue) && rest == Front(ds, toQueue)
    {
      hide Chain, Run, Places, SkipReads, Left, Buffer, Table.Fits;
      i, rest := i0, ds;
      d := Start(i, ds);
      if toQueue {
        found, i, d, rest := FirstWrite(i0, ds);
        if !found {
          NoBuffer(ds);
          return;
        }
      }
      BufferIs(ds, toQueue, rest);
      found := true;
    }

    /** The descriptor at an offset of a buffer. */
    method Locate(i0: nat, offset0: nat, toQueue: bool, ghost ds: seq<Desc>, ghost count: nat)
      returns (found: bool, i: nat, d: Desc, offset: nat, ghost rest: seq<Desc>)
      requires Valid() && Chain(table, ram[..], i0, ds)
      ensures found <==> offset0 < |Buffer(ds, toQueue)|
      ensures found ==> At(i, d, rest) && d.write == toQueue && offset < d.len
      ensures found ==> Rest(Buffer(ds, toQueue), offset0, Left(rest, toQueue), offset)
      ensures TooLong(Front(ds, toQueue), toQueue, offset0, count) <==> found && TooLong(rest, toQueue, offset, count)
    {
      hide *;
      ghost var b := Buffer(ds, toQueue);
      NotTooLong([], toQueue, offset0, count);
      offset := offset0;
      found, i, d, rest := StartOf(i0, toQueue, ds);
      if !found { return; }
      RestStart(b, offset);
      while true
        invariant At(i, d, rest) && Rest(b, offset0, Left(rest, toQueue), offset)
        invariant TooLong(Front(ds, toQueue), toQueue, offset0, count) <==> TooLong(rest, toQueue, offset, count)
        decreases |rest|
      {
        IsHead(i, d, rest);
        TooLongNext(rest, toQueue, offset, count);
        ghost var q := Left(rest, toQueue);
        RestOver(b, offset0, q, offset);
        if d.write != toQueue {
          LeftOfOther(rest, toQueue);
          return false, i, d, offset, rest;
        }
        LeftOfNext(rest, toQueue);
        if offset < d.len {
          return true, i, d, offset, rest;
        }
        RestNext(b, offset0, q, offset, d.len);
        if !d.more {
          LeftOfOther(rest[1..], toQueue);
          return false, i, d, offset, rest;
        }
        offset := offset - d.len;
        i, d := Next(i, d, rest);
        rest := rest[1..];
      }
    }

    /** One piece of a descriptor is copied. */
    method CopyPart(a: nat, l: nat, toQueue: bool, data: seq<bv8>) returns (out: seq<bv8>)
      requires ram.Length % PAGE == 0 && InRam(Addresses(a, l), ram[..]) && (toQueue ==> |data| == l)
      modifies ram
      ensures toQueue ==> out == [] && ram[..] == Scatter(old(ram[..]), Addresses(a, l), data)
      ensures !toQueue ==> ram[..] == old(ram[..]) && out == Gather(ram[..], Addresses(a, l))
    {
      InRamRow(ram[..], a, l);
      hide Scatter, Gather;
      out := [];
      if toQueue {
        var ok := CopyToRam(a, data);
        if l > 0 {
          ScatterRow(old(ram[..]), a, data);
        } else {
          NoBytes(ram[..], Addresses(a, l), data);
        }
      } else {
        var ok;
        ok, out := CopyFromRam(a, l);
        if l > 0 {
          GatherRow(ram[..], a, l);
        } else {
          NoBytes(ram[..], Addresses(a, l), []);
        }
      }
    }

    lemma ChainFits(t: Table, r: seq<bv8>, i: nat, rest: seq<Desc>)
      requires Chain(t, r, i, rest)
      ensures t.Fits(r)
    {
    }

    /** The walk stands in a descriptor of the buffer `b`, at its place `at`. */
    ghost predicate Walking(i: nat, d: Desc, offset: nat, toQueue: bool, rest: seq<Desc>, b: seq<nat>, at: nat)
      reads this, ram
    {
      At(i, d, rest) && d.write == toQueue && offset <= d.len && Rest(b, at, Left(rest, toQueue), offset)
    }

    /** The bytes copied so far, and a memory in which the chain is still there. */
    ghost predicate Going(b: seq<nat>, offset0: nat, done: nat, toQueue: bool, data: seq<bv8>, was: seq<bv8>,
                          out: seq<bv8>)
      reads this, ram
    {
      && Valid() && |was| == ram.Length && InRam(b, was) && (toQueue ==> done <= |data| && Apart(table, b))
      && (done > 0 ==> offset0 + done <= |b|) && Copied(b, offset0, done, toQueue, data, was, ram[..], out)
    }

    lemma PlaceIs(i: nat, d: Desc, offset: nat, l: nat, toQueue: bool, rest: seq<Desc>, b: seq<nat>, at: nat,
                  r: seq<bv8>)
      requires Walking(i, d, offset, toQueue, rest, b, at) && offset + l <= d.len && InRam(b, r)
      ensures rest != [] && at + l <= |b| && InRam(b[at..at + l], r) &&
              (Apart(table, b) ==> Apart(table, b[at..at + l]))
      ensures b[at..at + l] == Addresses(d.addr + offset, l) && Rest(b, at + l, Left(rest, toQueue), offset + l)
    {
      hide Rest, Left;
      IsHead(i, d, rest);
      LeftPiece(rest, toQueue, offset, l);
      RestTaken(b, at, Left(rest, toQueue), offset, l);
      SliceIn(table, r, b, at, l);
    }

    /** A piece of the current descriptor is copied; the chain stays as it is. */
    method CopyStep(i: nat, d: Desc, offset: nat, l: nat, toQueue: bool, data: seq<bv8>, done: nat, out0: seq<bv8>,
                    ghost rest: seq<Desc>, ghost b: seq<nat>, ghost offset0: nat, ghost was: seq<bv8>)
      returns (out: seq<bv8>)
      requires Walking(i, d, offset, toQueue, rest, b, offset0 + done) && offset + l <= d.len &&
               (toQueue ==> done + l <= |data|)
      requires Going(b, offset0, done, toQueue, data, was, out0)
      modifies ram
      ensures Walking(i, d, offset + l, toQueue, rest, b, offset0 + done + l)
      ensures Valid() && Going(b, offset0, done + l, toQueue, data, was, out) && offset0 + done + l <= |b|
    {
      hide Chain, Scatter, Gather, Left, Rest, Table.Fits, InRam, Apart, Copied;
      ghost var mid := ram[..];
      SameLength(b, was, mid);
      PlaceIs(i, d, offset, l, toQueue, rest, b, offset0 + done, mid);
      ghost var ps := Addresses(d.addr + offset, l);
      if toQueue {
        ChainAfter(table, mid, ps, data[done..done + l], i, rest);
        ChainFits(table, Scatter(mid, ps, data[done..done + l]), i, rest);
      }
      var part := CopyPart(d.addr + offset, l, toQueue, if toQueue then data[done..done + l] else []);
      out := out0 + part;
      CopiedMore(b, offset0, done, l, toQueue, data, was, mid, ram[..], out0, part, ps);
    }

    lemma SameLength(b: seq<nat>, r: seq<bv8>, s: seq<bv8>)
      requires InRam(b, r) && |r| == |s|
      ensures InRam(b, s)
    {
    }

    /** memcpy_to_from_queue: copies between a slice of a buffer of the chain and `data` or `out`.  It fails exactly
        when the slice does not lie in the buffer, and then as much of it is copied as does.  What is left of a
        descriptor is an int: at 2^31 bytes or more it is negative, and the copy goes astray. */
    method Memcpy(i0: nat, offset0: nat, count: nat, toQueue: bool, data: seq<bv8>, ghost ds: seq<Desc>)
      returns (ret: int, out: seq<bv8>, astray: bool)
      requires Valid() && Chain(table, ram[..], i0, ds) && InRam(Buffer(ds, toQueue), ram[..]) && count < SIGNED32
      requires toQueue ==> |data| == count && Apart(table, Buffer(ds, true))
      modifies ram
      ensures astray <==> TooLong(Front(ds, toQueue), toQueue, offset0, count)
      ensures Valid() && Chain(table, ram[..], i0, ds)
      ensures !astray ==> ret == if count == 0 || offset0 + count <= |Buffer(ds, toQueue)| then 0 else -1
      ensures var n := Amount(|Buffer(ds, toQueue)|, offset0, count);
              !astray ==> Copied(Buffer(ds, toQueue), offset0, n, toQueue, data, old(ram[..]), ram[..], out)
    {
      hide *;
      ghost var b, was := Buffer(ds, toQueue), ram[..];
      GoingStart(b, offset0, toQueue, data, was);
      out, astray := [], false;
      if count == 0 {
        NotTooLong(Front(ds, toQueue), toQueue, offset0, count);
        GoingEnd(b, offset0, 0, count, toQueue, data, was, out, i0, ds);
        return 0, out, false;
      }
      var found, i: nat, d, offset: nat, rest := Locate(i0, offset0, toQueue, ds, count);
      if !found {
        GoingEnd(b, offset0, 0, count, toQueue, data, was, out, i0, ds);
        return -1, out, false;
      }
      WalkingStart(i, d, offset, toQueue, rest, b, offset0);
      var done: nat := 0;
      while true
        invariant Walking(i, d, offset, toQueue, rest, b, offset0 + done) && offset <= d.len && done < count
        invariant Going(b, offset0, done, toQueue, data, was, out) && offset0 + done <= |b|
        invariant TooLong(Front(ds, toQueue), toQueue, offset0, count) <==> TooLong(rest, toQueue, offset, count - done)
        decreases |rest|
      {
        Piece(i, d, offset, toQueue, rest, b, offset0 + done, count - done);
        var l := MinInt(count - done, d.len - offset);
        if l < 0 {
          GoingChain(b, offset0, done, toQueue, data, was, out, i0, ds);
          return 0, out, true;
        }
        out := CopyStep(i, d, offset, l, toQueue, data, done, out, rest, b, offset0, was);
        done, offset := done + l, offset + l;
        if done == count {
          break;
        }
        // The descriptor is used up.
        ghost var left := rest;
        var more;
        more, i, d, rest := NextOf(i, d, offset, toQueue, rest, b, offset0 + done);
        if !more {
          NotTooLong(left[1..], toQueue, 0, count - done);
          GoingEnd(b, offset0, done, count, toQueue, data, was, out, i0, ds);
          return -1, out, false;
        }
        offset := 0;
      }
      GoingEnd(b, offset0, done, count, toQueue, data, was, out, i0, ds);
      ret := 0;
    }

    /** The length of the next piece. */
    lemma Piece(i: nat, d: Desc, offset: nat, toQueue: bool, rest: seq<Desc>, b: seq<nat>, at: nat, count: nat)
      requires Walking(i, d, offset, toQueue, rest, b, at) && offset <= d.len && 0 < count < SIGNED32
      ensures rest != [] && d == rest[0]
      ensures MinInt(count, d.len - offset) < 0 <==> d.len - offset >= SIGNED32
      ensures d.len - offset < SIGNED32 ==>
                var l := MinInt(count, d.len - offset);
                && l == (if count < d.len - offset then count else d.len - offset)
                && (TooLong(rest, toQueue, offset, count) <==> l < count && TooLong(rest[1..], toQueue, 0, count - l))
      ensures d.len - offset >= SIGNED32 ==> TooLong(rest, toQueue, offset, count)
    {
      IsHead(i, d, rest);
      LenIsWord(table, ram[..], i, rest);
      TooLongNext(rest, toQueue, offset, count);
      hide At, Rest, Left, TooLong;
    }

    lemma GoingChain(b: seq<nat>, offset0: nat, done: nat, toQueue: bool, data: seq<bv8>, was: seq<bv8>,
                     out: seq<bv8>, i0: nat, ds: seq<Desc>)
      requires Going(b, offset0, done, toQueue, data, was, out) && Chain(table, was, i0, ds)
      ensures Valid() && Chain(table, ram[..], i0, ds)
    {
      hide Chain, Scatter, Gather, InRam;
      if toQueue {
        var ps := Slice(b, offset0, done);
        if done > 0 {
          SliceIn(table, was, b, offset0, done);
        } else {
          NothingIn(table, was);
        }
        hide Apart;
        ChainAfter(table, was, ps, data[..done], i0, ds);
      }
    }

    /** At the end of a descriptor: the next one, if it is of the same kind. */
    method NextOf(i0: nat, d0: Desc, offset: nat, toQueue: bool, ghost rest0: seq<Desc>, ghost b: seq<nat>,
                  ghost at: nat)
      returns (more: bool, i: nat, d: Desc, ghost rest: seq<Desc>)
      requires Valid() && Walking(i0, d0, offset, toQueue, rest0, b, at) && offset == d0.len
      ensures !more ==> |b| == at && rest0 != [] && (rest0[1..] == [] || rest0[1..][0].write != toQueue)
      ensures more ==> rest0 != [] && rest == rest0[1..]
      ensures more ==> Walking(i, d, 0, toQueue, rest, b, at) && |rest| < |rest0|
    {
      hide Chain, Left, Rest, At;
      i, d, rest := i0, d0, rest0;
      IsHead(i, d, rest);
      LeftOfNext(rest, toQueue);
      RestNext(b, at, Left(rest, toQueue), offset, offset);
      RestOver(b, at, Left(rest[1..], toQueue), 0);
      if !d.more {
        LeftOfOther(rest[1..], toQueue);
        return false, i, d, rest;
      }
      i, d := Next(i, d, rest);
      rest := rest[1..];
      IsHead(i, d, rest);
      if d.write != toQueue {
        LeftOfOther(rest, toQueue);
        return false, i, d, rest;
      }
      more := true;
    }

    lemma WalkingStart(i: nat, d: Desc, offset: nat, toQueue: bool, rest: seq<Desc>, b: seq<nat>, at: nat)
      requires At(i, d, rest) && d.write == toQueue && offset < d.len && Rest(b, at, Left(rest, toQueue), offset)
      ensures Walking(i, d, offset, toQueue, rest, b, at)
    {
    }

    lemma GoingStart(b: seq<nat>, offset0: nat, toQueue: bool, data: seq<bv8>, was: seq<bv8>)
      requires Valid() && was == ram[..] && InRam(b, was) && (toQueue ==> Apart(table, b))
      ensures Going(b, offset0, 0, toQueue, data, was, [])
    {
      CopiedNone(b, offset0, toQueue, data, was);
      hide Copied, InRam, Apart;
    }

    /** In the end as much is copied as lies in the buffer, and the chain is still there. */
    lemma GoingEnd(b: seq<nat>, offset0: nat, done: nat, count: nat, toQueue: bool, data: seq<bv8>, was: seq<bv8>,
                   out: seq<bv8>,
                   i0: nat, ds: seq<Desc>)
      requires Going(b, offset0, done, toQueue, data, was, out) && Chain(table, was, i0, ds) && done <= count
      requires done == count || |b| == offset0 + done || (done == 0 && |b| <= offset0)
      ensures Valid() && Chain(table, ram[..], i0, ds) && done == Amount(|b|, offset0, count)
      ensures done < count ==> offset0 + count > |b|
      ensures done == count ==> count == 0 || offset0 + count <= |b|
      ensures Copied(b, offset0, done, toQueue, data, was, ram[..], out)
    {
      GoingChain(b, offset0, done, toQueue, data, was, out, i0, ds);
      hide Chain, Scatter, Gather, InRam;
    }

    lemma NothingIn(t: Table, r: seq<bv8>)
      ensures InRam([], r) && Apart(t, [])
    {
    }

    /** get_desc_rw_size: the sizes of the two buffers, for a chain that has its read part before its write part. They
        are summed up as ints. */
    method GetDescRwSize(i0: nat, ghost ds: seq<Desc>) returns (ret: int, readSize: int, writeSize: int)
      requires Valid() && Chain(table, ram[..], i0, ds)
      ensures ret == if WellFormed(ds) then 0 else -1
      ensures ret == 0 ==> readSize == Int32(|Buffer(ds, false)|) && writeSize == Int32(|Buffer(ds, true)|)
      ensures ret == 0 ==> (readSize == |Buffer(ds, false)| <==> |Buffer(ds, false)| < SIGNED32)
      ensures ret == 0 ==> (writeSize == |Buffer(ds, true)| <==> |Buffer(ds, true)| < SIGNED32)
    {
      Int32Keeps(|Buffer(ds, false)|);
      Int32Keeps(|Buffer(ds, true)|);
      hide *;
      writeSize := 0;
      var more, size, i, d, rest := ReadSize(i0, ds);
      readSize := size;
      SizesSplit(ds);
      if !more {
        return 0, readSize, writeSize;
      }
      ret, writeSize := WriteSize(i, d, rest);
    }

    /** The first loop of get_desc_rw_size. */
    method ReadSize(i0: nat, ghost ds: seq<Desc>)
      returns (more: bool, size: int, i: nat, d: Desc, ghost rest: seq<Desc>)
      requires Valid() && Chain(table, ram[..], i0, ds)
      ensures size == Int32(|Left(ds, false)|) && (more <==> SkipReads(ds) != [])
      ensures more ==> At(i, d, rest) && rest == SkipReads(ds) && d.write
    {
      hide *;
      size, rest, i := 0, ds, i0;
      d := Start(i, ds);
      SizingStart(ds);
      while !d.write
        invariant At(i, d, rest) && Sizing(ds, rest, size)
        decreases |rest|
      {
        IsHead(i, d, rest);
        SizingStep(ds, rest, size);
        size := Int32(size + d.len);
        if !d.more {
          SizingEnd(ds, rest[1..], size);
          return false, size, i, d, rest;
        }
        i, d := Next(i, d, rest);
        rest := rest[1..];
      }
      IsHead(i, d, rest);
      SizingEnd(ds, rest, size);
      more := true;
    }

    /** The second loop of get_desc_rw_size. */
    method WriteSize(i0: nat, d0: Desc, ghost w: seq<Desc>) returns (ret: int, size: int)
      requires Valid() && At(i0, d0, w) && d0.write
      ensures ret == if Run(w, true) == w then 0 else -1
      ensures ret == 0 ==> size == Int32(|Left(w, true)|)
    {
      hide *;
      NoSize(|Left(w, true)|);
      ghost var rest := w;
      var i, d := i0, d0;
      size := 0;
      IsHead(i, d, rest);
      while true
        invariant At(i, d, rest) && rest != [] && d == rest[0]
        invariant Run(rest, true) == rest <==> Run(w, true) == w
        invariant size == Int32(|Left(w, true)| - |Left(rest, true)|)
        decreases |rest|
      {
        IsHead(i, d, rest);
        RunWhole(rest);
        if !d.write {
          return -1, size;
        }
        SizeStep(|Left(w, true)|, rest, true, size);
        size := Int32(size + d.len);
        if !d.more {
          LeftOfOther(rest[1..], true);
          break;
        }
        i, d := Next(i, d, rest);
        rest := rest[1..];
        IsHead(i, d, rest);
      }
      ret := 0;
    }
  }

  lemma NoSize(n: nat)
    ensures Int32(n - n) == 0
  {
  }

  /** The buffers of a chain and its two parts. */
  lemma SizesSplit(ds: seq<Desc>)
    ensures Buffer(ds, false) == Left(ds, false) && Buffer(ds, true) == Left(SkipReads(ds), true)
    ensures WellFormed(ds) <==> Run(SkipReads(ds), true) == SkipReads(ds)
    ensures SkipReads(ds) == [] ==> WellFormed(ds) && Buffer(ds, true) == [] && Int32(|Buffer(ds, true)|) == 0
  {
  }

  /** The length of a descriptor has 32 bits. */
  lemma LenIsWord(t: Table, ram: seq<bv8>, i: nat, ds: seq<Desc>)
    requires Chain(t, ram, i, ds)
    ensures ds != [] && ds[0].len < U32
  {
    ChainNext(t, ram, i, ds);
    assert DESC * i + DESC <= DESC * t.num;
    var b := ram[t.table + DESC * i..t.table + DESC * i + DESC];
    hide Chain;
    LeWord(b[8..12]);
  }

  lemma LeStep(b: seq<bv8>)
    requires b != []
    ensures 256 * Le(b[1..]) <= Le(b) <= 255 + 256 * Le(b[1..])
    ensures b[1..] == [] ==> Le(b[1..]) == 0
  {
    var d := b[0] as nat;
    assert d < 256;
  }

  lemma LeWord(b: seq<bv8>)
    requires |b| == 4
    ensures Le(b) < U32
  {
    var x, y, z := b[1..], b[2..], b[3..];
    assert x[1..] == y && y[1..] == z && z[1..] == [];
    LeStep(b);
    LeStep(x);
    LeStep(y);
    LeStep(z);
    hide Le;
  }

  /** A descriptor for which the size comes out negative. */
  lemma HugeDescriptor()
    ensures var ds := [Desc(0, 0xffff_ffff, true, false, 0)];
            WellFormed(ds) && |Buffer(ds, true)| == 0xffff_ffff && Int32(|Buffer(ds, true)|) == -1
  {
    var ds := [Desc(0, 0xffff_ffff, true, false, 0)];
    assert ds[1..] == [] && Run(ds, true) == ds;
    assert Places(ds) == Addresses(0, 0xffff_ffff) + [];
  }

  // ----- lengths that are not ints

  /** From offset `offset` of the descriptors of one kind on, a copy of `count` bytes comes to a descriptor with 2^31
      bytes or more left. */
  predicate TooLong(ds: seq<Desc>, write: bool, offset: nat, count: nat)
    decreases |ds|
  {
    if ds == [] || ds[0].write != write || count == 0 then false
    else if offset >= ds[0].len then TooLong(ds[1..], write, offset - ds[0].len, count)
    else if ds[0].len - offset >= SIGNED32 then true
    else TooLong(ds[1..], write, 0, if count <= ds[0].len - offset then 0 else count - (ds[0].len - offset))
  }

  lemma NotTooLong(ds: seq<Desc>, write: bool, offset: nat, count: nat)
    requires ds == [] || ds[0].write != write || count == 0
    ensures !TooLong(ds, write, offset, count)
  {
  }

  lemma TooLongNext(ds: seq<Desc>, write: bool, offset: nat, count: nat)
    requires ds != []
    ensures ds[0].write != write ==> !TooLong(ds, write, offset, count)
    ensures ds[1..] == [] ==> !TooLong(ds[1..], write, offset, count)
    ensures ds[0].write == write && offset >= ds[0].len ==>
              (TooLong(ds, write, offset, count) <==> TooLong(ds[1..], write, offset - ds[0].len, count))
    ensures ds[1..] == [] && offset >= ds[0].len ==> !TooLong(ds, write, offset, count)
    ensures ds[0].write == write && offset < ds[0].len && count > 0 ==>
              (TooLong(ds, write, offset, count) <==>
               ds[0].len - offset >= SIGNED32
               || (count > ds[0].len - offset && TooLong(ds[1..], write, 0, count - (ds[0].len - offset))))
  {
    if ds[0].write == write && count == 0 && offset >= ds[0].len { }
  }

  /** Where a buffer begins. */
  function Front(ds: seq<Desc>, toQueue: bool): seq<Desc> {
    if toQueue then SkipReads(ds) else ds
  }

  lemma SkipStep(ds: seq<Desc>)
    ensures ds == [] ==> SkipReads(ds) == []
    ensures ds != [] ==> SkipReads(ds) == if ds[0].write then ds else SkipReads(ds[1..])
  {
  }

  /** The size of what was read, when `rest` is left. */
  ghost predicate Sizing(ds: seq<Desc>, rest: seq<Desc>, size: int) {
    SkipReads(rest) == SkipReads(ds) && size == Int32(|Left(ds, false)| - |Left(rest, false)|)
  }

  lemma SizingStart(ds: seq<Desc>)
    ensures Sizing(ds, ds, 0)
  {
    hide SkipReads, Left;
  }

  lemma SizingStep(ds: seq<Desc>, rest: seq<Desc>, size: int)
    requires Sizing(ds, rest, size) && rest != [] && !rest[0].write
    ensures Sizing(ds, rest[1..], Int32(size + rest[0].len))
  {
    SkipStep(rest);
    SizeStep(|Left(ds, false)|, rest, false, size);
    hide SkipReads, Left, Int32;
  }

  lemma SizingEnd(ds: seq<Desc>, rest: seq<Desc>, size: int)
    requires Sizing(ds, rest, size) && (rest == [] || rest[0].write)
    ensures size == Int32(|Left(ds, false)|) && SkipReads(ds) == rest
  {
    SkipStep(rest);
    LeftOfOther(rest, false);
    hide SkipReads, Left, Int32;
  }

  lemma SizeStep(total: int, rest: seq<Desc>, w: bool, size: int)
    requires rest != [] && rest[0].write == w && size == Int32(total - |Left(rest, w)|)
    ensures Int32(size + rest[0].len) == Int32(total - |Left(rest[1..], w)|)
  {
    hide *;
    LeftOfNext(rest, w);
    Int32Sum(total - |Left(rest, w)|, rest[0].len);
  }

  lemma RunWhole(ds: seq<Desc>)
    requires ds != []
    ensures ds[0].write ==> (Run(ds, true) == ds <==> Run(ds[1..], true) == ds[1..])
    ensures !ds[0].write ==> Run(ds, true) != ds
    ensures ds[1..] == [] ==> Run(ds[1..], true) == ds[1..]
  {
    var r := [ds[0]] + Run(ds[1..], true);
    assert r[1..] == Run(ds[1..], true);
    assert ds == [ds[0]] + ds[1..];
  }

  lemma PageInRam(a: nat, n: nat)
    requires n % PAGE == 0 && a < n
    ensures a + PageLeft(a) <= n
  {
  }
}
