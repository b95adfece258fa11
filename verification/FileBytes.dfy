/** The bytes of a local file (fs_net.c: file_buffer_resize, file_buffer_set, file_buffer_write, file_buffer_read and
    their use in fs_truncate, fs_write and fs_read). */
module FileBytes {
  import opened Widths

  const ENOSPC: int := -28

  // ----- a file as a sequence of bytes

  function Zeros(n: nat): (z: seq<bv8>)
    ensures |z| == n
  {
    seq(n, i => 0)
  }

  function Resized(c: seq<bv8>, n: nat): (r: seq<bv8>)
    ensures |r| == n
  {
    if n <= |c| then c[..n] else c + Zeros(n - |c|)
  }

  /** The file after a write: what is between the old end and the write is zero. */
  function Overwritten(c: seq<bv8>, offset: nat, x: seq<bv8>): (r: seq<bv8>)
    ensures |r| == if x == [] || offset + |x| <= |c| then |c| else offset + |x|
  {
    if x == [] then c
    else
      var base := if offset + |x| <= |c| then c else Resized(c, offset + |x|);
      base[..offset] + x + base[offset + |x|..]
  }

  /** What a read delivers. */
  function Part(c: seq<bv8>, offset: nat, count: nat): (r: seq<bv8>) {
    if offset >= |c| then [] else if count <= |c| - offset then c[offset..offset + count] else c[offset..]
  }

  /** What is written is read back; before it the file is as it was, or zero behind the old end; and behind it as it
      was. */
  lemma WriteThenRead(c: seq<bv8>, offset: nat, x: seq<bv8>, k: nat)
    requires x != [] && k < |Overwritten(c, offset, x)|
    ensures Part(Overwritten(c, offset, x), offset, |x|) == x
    ensures Overwritten(c, offset, x)[k] ==
            if offset <= k < offset + |x| then x[k - offset] else if k < |c| then c[k] else 0
  {
    var base := if offset + |x| <= |c| then c else Resized(c, offset + |x|);
    var r := Overwritten(c, offset, x);
    assert r == base[..offset] + x + base[offset + |x|..];
    assert r[offset..offset + |x|] == x;
  }

  /** Nothing that was cut off comes back when the file grows again. */
  lemma CutIsGone(c: seq<bv8>, n: nat, m: nat, k: nat)
    requires n <= |c| && n <= k < m
    ensures Resized(Resized(c, n), m)[k] == 0
  {
  }

  /** Two writes next to each other are one. */
  lemma WritesJoin(c: seq<bv8>, offset: nat, x: seq<bv8>, y: seq<bv8>)
    requires x != [] && y != []
    ensures Overwritten(Overwritten(c, offset, x), offset + |x|, y) == Overwritten(c, offset, x + y)
  {
    var a, b := Overwritten(Overwritten(c, offset, x), offset + |x|, y), Overwritten(c, offset, x + y);
    forall k | 0 <= k < |a| ensures a[k] == b[k] {
      WriteThenRead(Overwritten(c, offset, x), offset + |x|, y, k);
      WriteThenRead(c, offset, x + y, k);
      if k < |Overwritten(c, offset, x)| { WriteThenRead(c, offset, x, k); }
    }
  }

  // ----- the buffer

  /** A file in memory: the first `size` bytes of a buffer that may be longer. */
  class File {
    var data: array<bv8>
    var size: nat

    ghost predicate Valid()
      reads this
    {
      size <= data.Length < SIGNED64
    }

    ghost function Contents(): seq<bv8>
      reads this, data
      requires Valid()
    {
      data[..size]
    }

    constructor ()
      ensures Valid() && Contents() == [] && fresh(data)
    {
      data := new bv8[0];
      size := 0;
    }

    /** file_buffer_resize: realloc, which fails for more than `memory` bytes. */
    method FileBufferResize(newSize: nat, memory: nat) returns (ok: bool)
      modifies `data
      ensures ok <==> newSize <= memory || newSize == 0
      ensures !ok ==> data == old(data)
      ensures ok ==> fresh(data) && data.Length == newSize
      ensures ok ==> forall k :: 0 <= k < newSize && k < old(data).Length ==> data[k] == old(data[k])
    {
      if newSize > memory && newSize != 0 {
        return false;
      }
      var d := data;
      data := new bv8[newSize](k requires k >= 0 reads d => if k < d.Length then d[k] else 0);
      ok := true;
    }

    /** file_buffer_set, with zero */
    method FileBufferSet(offset: nat, n: nat)
      requires offset + n <= data.Length
      modifies data
      ensures data[..] == old(data[..offset]) + Zeros(n) + old(data[offset + n..])
    {
      ghost var before := data[..];
      var k := 0;
      while k < n
        invariant k <= n && data[..offset] == before[..offset] && data[offset + k..] == before[offset + k..]
        invariant data[offset..offset + k] == Zeros(k)
      {
        data[offset + k] := 0;
        k := k + 1;
      }
    }

    /** file_buffer_write */
    method FileBufferWrite(offset: nat, x: seq<bv8>)
      requires offset + |x| <= data.Length
      modifies data
      ensures data[..] == old(data[..offset]) + x + old(data[offset + |x|..])
    {
      ghost var before := data[..];
      var k := 0;
      while k < |x|
        invariant k <= |x| && data[..offset] == before[..offset] && data[offset + k..] == before[offset + k..]
        invariant data[offset..offset + k] == x[..k]
      {
        data[offset + k] := x[k];
        k := k + 1;
      }
    }

    /** The growth in fs_truncate: the buffer grows by a quarter at least. */
    method Grow(newSize: nat, memory: nat) returns (ok: bool)
      requires Valid() && size < newSize < SIGNED64 && memory < SIGNED64
      modifies this, data
      ensures Valid() && (ok <==> newSize <= old(data).Length || Room(newSize, old(data).Length) <= memory)
      ensures Contents() == if ok then Resized(old(Contents()), newSize) else old(Contents())
      ensures data == old(data) || fresh(data)
    {
      ghost var before := Contents();
      if newSize > data.Length {
        ok := FileBufferResize(Room(newSize, data.Length), memory);
        if !ok {
          return;
        }
      }
      assert data[..size] == before;
      FileBufferSet(size, newSize - size);
      size := newSize;
      ok := true;
    }

    /** The shrinking in fs_truncate: a buffer of which a fifth is not needed any more is made smaller. */
    method Shrink(newSize: nat)
      requires Valid() && newSize < size
      modifies this
      ensures Valid() && Contents() == Resized(old(Contents()), newSize) && (data == old(data) || fresh(data))
      ensures data.Length == if newSize <= old(data).Length * 4 / 5 then old(data).Length * 4 / 5 else old(data).Length
    {
      var less := data.Length * 4 / 5;
      if newSize <= less {
        var ok := FileBufferResize(less, data.Length);
      }
      size := newSize;
    }

    /** fs_truncate of a local file, for sizes whose difference is no smaller than the other way round. */
    method Truncate(newSize: nat, memory: nat) returns (ok: bool)
      requires Valid() && newSize < SIGNED64 && memory < SIGNED64
      modifies this, data
      ensures Valid() && (data == old(data) || fresh(data))
      ensures ok <==> newSize <= old(data).Length || Room(newSize, old(data).Length) <= memory
      ensures Contents() == if ok then Resized(old(Contents()), newSize) else old(Contents())
    {
      if newSize == size {
        return true;
      }
      if newSize > size {
        ok := Grow(newSize, memory);
      } else {
        Shrink(newSize);
        ok := true;
      }
    }

    /** fs_write */
    method Write(offset: nat, x: seq<bv8>, memory: nat) returns (ret: int)
      requires Valid() && offset + |x| < SIGNED64 && memory < SIGNED64
      modifies this, data
      ensures Valid() && (data == old(data) || fresh(data))
      ensures var end := offset + |x|;
              ret == if x == [] || end <= old(data).Length || Room(end, old(data).Length) <= memory then |x| else ENOSPC
      ensures Contents() == if ret == |x| then Overwritten(old(Contents()), offset, x) else old(Contents())
    {
      if x == [] {
        return 0;
      }
      var end := offset + |x|;
      if end > size {
        var ok := Truncate(end, memory);
        if !ok {
          return ENOSPC;
        }
      }
      ghost var base := Contents();
      FileBufferWrite(offset, x);
      assert Contents() == base[..offset] + x + base[end..];
      ret := |x|;
    }

    /** fs_read */
    method Read(offset: nat, count: nat) returns (out: seq<bv8>)
      requires Valid()
      ensures out == Part(Contents(), offset, count)
    {
      if offset >= size {
        return [];
      }
      var n := count;
      if size - offset < n {
        n := size - offset;
      }
      out := data[offset..offset + n];
    }
  }

  /** The buffer that fs_truncate asks for. */
  function Room(newSize: nat, was: nat): (r: nat)
    ensures r >= newSize
  {
    var more := was * 5 / 4;
    if newSize > more then newSize else more
  }

  /** It is the smallest that has room for the bytes and is larger by a quarter. */
  lemma RoomIs(newSize: nat, was: nat, r: nat)
    ensures r == Room(newSize, was) <==>
            r >= newSize && 4 * r + 4 > 5 * was && (r > newSize ==> 4 * r <= 5 * was)
  {
  }
}
