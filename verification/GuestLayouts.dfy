/** The layout of the structures that the guest and the device share, byte by byte (virtio.c: get_desc,
    virtio_block_recv_request), without naming how the device takes them apart. */
module GuestLayouts {
  import opened Options
  import opened Quotients
  import opened DescChain
  import opened BlockImage
  import opened BlockRuns
  import opened BlockRequests

  /** The bytes hold the number, the least significant one first. */
  ghost predicate Stores(b: seq<bv8>, n: nat) {
    n < Power256(|b|) && forall i :: 0 <= i < |b| ==> b[i] as nat == n / Power256(i) % 256
  }

  lemma StoresNext(b: seq<bv8>, n: nat)
    requires b != []
    ensures Stores(b, n) <==> b[0] as nat == n % 256 && Stores(b[1..], n / 256)
  {
    forall i | 0 < i < |b| ensures n / Power256(i) == n / 256 / Power256(i - 1) {
      DivTwice(n, Power256(i - 1));
    }
    assert Power256(0) == 1;
    if b[0] as nat == n % 256 && Stores(b[1..], n / 256) {
      forall i | 0 <= i < |b| ensures b[i] as nat == n / Power256(i) % 256 {
        if i > 0 {
          assert b[1..][i - 1] == b[i];
        }
      }
    }
  }

  /** Every number of bytes is the number they hold. */
  lemma {:induction false} LeIs(b: seq<bv8>, n: nat)
    ensures Le(b) == n <==> Stores(b, n)
  {
    if b != [] {
      var d := b[0] as nat;
      assert d < 256;
      StoresNext(b, n);
      hide Stores;
      LeIs(b[1..], n / 256);
    }
  }

  /** A descriptor: the address in 8 bytes, the length in 4, the flags NEXT (1) and WRITE (2) with others above them,
      and the next descriptor in 2. */
  lemma DescriptorIs(b: seq<bv8>, addr: nat, len: nat, more: bool, write: bool, others: nat, next: nat)
    requires |b| == 16 && Stores(b[..8], addr) && Stores(b[8..12], len) && Stores(b[14..16], next)
    requires Stores(b[12..14], Flags(more, write, others))
    ensures DescOf(b) == Desc(addr, len, write, more, next)
  {
    LeIs(b[..8], addr);
    LeIs(b[8..12], len);
    LeIs(b[12..14], Flags(more, write, others));
    LeIs(b[14..16], next);
    FlagsApart(more, write, others);
    hide Le, Stores, Flags;
  }

  function Flags(more: bool, write: bool, others: nat): nat {
    (if more then 1 else 0) + (if write then 2 else 0) + 4 * others
  }

  lemma FlagsApart(more: bool, write: bool, others: nat)
    ensures Flags(more, write, others) % 2 == 1 <==> more
    ensures Flags(more, write, others) / 2 % 2 == 1 <==> write
  {
  }

  /** Descriptor `i` of a table is the 16 bytes at its place. */
  lemma TableIs(t: Table, ram: seq<bv8>, i: nat)
    requires t.Fits(ram) && i < t.num
    ensures t.table + 16 * i + 16 <= |ram| && t.Get(ram, i) == DescOf(ram[t.table + 16 * i..t.table + 16 * i + 16])
  {
  }

  /** A request to read `n` sectors: the type 0 in 4 bytes, 4 bytes that do not matter, the sector in 8, and room for
      the sectors and the status. */
  lemma ReadRequestIs(header: seq<bv8>, rest: seq<bv8>, sector: nat, n: nat)
    requires |header| == 16 && Stores(header[..4], 0) && Stores(header[8..], sector)
    ensures Asks(header + rest, 512 * n + 1) == Some(Read(sector, n))
  {
    LeIs(header[..4], 0);
    LeIs(header[8..], sector);
    hide Le, Stores;
    assert (header + rest)[..4] == header[..4] && (header + rest)[8..16] == header[8..];
  }

  /** A request to write sectors: the type 1, and behind the header the bytes of the sectors. */
  lemma WriteRequestIs(header: seq<bv8>, sector: nat, data: seq<Sector>, writeSize: nat)
    requires |header| == 16 && Stores(header[..4], 1) && Stores(header[8..], sector)
    requires forall i :: 0 <= i < |data| ==> |data[i]| == 512
    ensures Asks(header + Bytes(data), writeSize) == Some(Write(sector, data))
  {
    LeIs(header[..4], 1);
    LeIs(header[8..], sector);
    hide Le, Stores;
    var read := header + Bytes(data);
    assert read[..4] == header[..4] && read[8..16] == header[8..] && read[16..] == Bytes(data);
    SectorsOfBytes(data);
  }

  lemma {:induction false} SectorsOfBytes(data: seq<Sector>)
    requires forall i :: 0 <= i < |data| ==> |data[i]| == 512
    ensures Sectors(Bytes(data)) == data
  {
    if data != [] {
      var b := Bytes(data);
      assert b[..512] == data[0] && b[512..] == Bytes(data[1..]);
      SectorsOfBytes(data[1..]);
    }
  }

  lemma {:induction false} ByteOfSector(ss: seq<Sector>, k: nat, i: nat)
    requires (forall j :: 0 <= j < |ss| ==> |ss[j]| == 512) && k < |ss| && i < 512
    ensures |Bytes(ss)| == 512 * |ss| && Bytes(ss)[512 * k + i] == ss[k][i]
  {
    BytesLength(ss);
    if k > 0 { ByteOfSector(ss[1..], k - 1, i); }
  }
}
