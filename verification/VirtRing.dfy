/** The rings of the block device queue (virtio.c: queue_notify, virtio_consume_desc, virtio_block_recv_request,
    virtio_block_req_end, virtio_block_req_cb). */
module VirtRing {
  import opened Quotients

  const WRAP: nat := 65536

  /** What the device finds at a descriptor: a chain that get_desc_rw_size refuses, a request without a header or of
      another type, a read with the size of its write buffer, or a write. */
  datatype Kind = Broken | Ignored | In(size: nat) | Out

  datatype Request = Request(head: nat, kind: Kind) {
    predicate Answered() { kind.In? || kind.Out? }

    /** The entry of the used ring. */
    function Answer(): (nat, nat)
      requires Answered()
    {
      (head, if kind.In? then kind.size else 1)
    }
  }

  /** The used entries that requests lead to, in order. */
  function Answers(rs: seq<Request>): seq<(nat, nat)> {
    if rs == [] then []
    else Answers(rs[..|rs| - 1]) + (if rs[|rs| - 1].Answered() then [rs[|rs| - 1].Answer()] else [])
  }

  /** Where the entry with number `k` goes in a ring of `n` entries. */
  function Place(k: nat, n: nat): (p: nat)
    requires 0 < n
    ensures p < n
  {
    k % n
  }

  /** The last entries written to a ring, the number of which is known modulo 2^16. */
  ghost predicate RingOf<T>(ring: seq<T>, index: nat, history: seq<T>) {
    && 0 < |ring| <= WRAP && WRAP % |ring| == 0 && index == |history| % WRAP
    && forall k :: 0 <= k < |history| && |history| - |ring| <= k ==> ring[Place(k, |ring|)] == history[k]
  }

  lemma ModMod(k: nat, n: nat)
    requires 0 < n <= WRAP && WRAP % n == 0
    ensures Place(k % WRAP, n) == Place(k, n)
  {
    var q, m := WRAP / n, k / WRAP;
    var r := k % WRAP;
    assert WRAP == q * n && k == m * WRAP + r;
    assert k == (m * q) * n + r by { Product(m, q, n); }
    AddMultiple(r, m * q, n);
  }

  /** The entry with number `k` is at the remainder of `k`, as long as it has not been overwritten. */
  lemma RingIs<T>(ring: seq<T>, index: nat, history: seq<T>, k: nat)
    requires RingOf(ring, index, history) && k < |history| <= k + |ring|
    ensures ring[k % |ring|] == history[k] && index == |history| % 0x1_0000
  {
    assert ring[Place(k, |ring|)] == history[k];
  }

  lemma DifferentPlaces(j: nat, k: nat, n: nat)
    requires j < k < j + n
    ensures Place(j, n) != Place(k, n)
  {
    DifferentRemainders(j, k, n);
  }

  lemma NextNumber(h: nat)
    ensures (h % WRAP + 1) % WRAP == (h + 1) % WRAP
  {
  }

  /** An entry is written at the place of its number. */
  lemma RingPushed<T>(ring: seq<T>, index: nat, history: seq<T>, x: T)
    requires RingOf(ring, index, history)
    ensures RingOf(ring[Place(index, |ring|) := x], (index + 1) % WRAP, history + [x])
  {
    var n, h := |ring|, |history|;
    ModMod(h, n);
    NextNumber(h);
    hide Place;
    var now, all := ring[Place(index, n) := x], history + [x];
    forall k | 0 <= k < h + 1 && h + 1 - n <= k ensures now[Place(k, n)] == all[k] {
      if k < h { DifferentPlaces(k, h, n); }
    }
  }

  /** A place that was filled less than a ring ago is found by the number modulo 2^16. */
  lemma RingGet<T>(ring: seq<T>, index: nat, history: seq<T>, k: nat)
    requires RingOf(ring, index, history) && k < |history| <= k + |ring|
    ensures ring[Place(k % WRAP, |ring|)] == history[k]
  {
    ModMod(k, |ring|);
  }

  lemma SameNumber(a: nat, b: nat)
    requires a <= b < a + WRAP
    ensures a % WRAP == b % WRAP <==> a == b
  {
    if a < b { DifferentPlaces(a, b, WRAP); }
  }

  lemma AnswersMore(rs: seq<Request>, n: nat)
    requires n < |rs|
    ensures Answers(rs[..n + 1]) == Answers(rs[..n]) + (if rs[n].Answered() then [rs[n].Answer()] else [])
  {
    assert rs[..n + 1][..n] == rs[..n];
  }

  /** The queue of the block device: the rings in guest memory, and the request in progress. */
  class BlockQueue {
    /** What the descriptors stand for, by the number of the first one. */
    const desc: array<Kind>
    const availRing: array<nat>
    var availIdx: nat
    const usedRing: array<(nat, nat)>
    var usedIdx: nat
    var lastAvailIdx: nat
    var reqInProgress: bool
    var req: Request
    /** Everything the driver ever made available, how much of it the device took, and all used entries. */
    ghost var published: seq<Request>
    ghost var taken: nat
    ghost var used: seq<(nat, nat)>

    ghost predicate Rings()
      reads this, availRing, usedRing
    {
      && availRing.Length == usedRing.Length && availRing.Length <= WRAP / 2
      && RingOf(availRing[..], availIdx, Heads(published)) && RingOf(usedRing[..], usedIdx, used)
      && taken <= |published| <= taken + availRing.Length && lastAvailIdx == taken % WRAP
    }

    /** The descriptors of a request that is not taken yet stay as they are, and are not used twice. */
    ghost predicate Pending()
      reads this, desc
    {
      && (forall k :: taken <= k < |published| ==>
          published[k].head < desc.Length && desc[published[k].head] == published[k].kind)
      && (forall j, k :: taken <= j < k < |published| ==> published[j].head != published[k].head)
    }

    /** The used entries are those of the first `n` requests, but for the one in progress. */
    ghost predicate Accounts(n: nat)
      reads this
    {
      && n <= |published| && (reqInProgress ==> req.Answered())
      && Answers(published[..n]) == used + if reqInProgress then [req.Answer()] else []
    }

    ghost predicate Valid()
      reads this, availRing, usedRing, desc
    {
      Rings() && Pending() && Accounts(taken)
    }

    constructor (num: nat, size: nat)
      requires 0 < num <= WRAP / 2 && WRAP % num == 0
      ensures Valid() && !reqInProgress && published == [] && used == []
      ensures fresh(desc) && fresh(availRing) && fresh(usedRing) && availRing.Length == num && desc.Length == size
    {
      desc := new Kind[size](i => Broken);
      availRing := new nat[num](i => 0);
      usedRing := new (nat, nat)[num](i => (0, 0));
      availIdx, usedIdx, lastAvailIdx, reqInProgress, req := 0, 0, 0, false, Request(0, Broken);
      published, taken, used := [], 0, [];
    }

    /** The driver makes a request available. */
    method Publish(r: Request)
      requires Valid() && |published| < taken + availRing.Length && r.head < desc.Length
      requires forall k :: taken <= k < |published| ==> published[k].head != r.head
      modifies this, desc, availRing
      ensures Valid() && published == old(published) + [r] && taken == old(taken) && used == old(used)
      ensures reqInProgress == old(reqInProgress) && req == old(req)
    {
      hide RingOf, Answers, Place;
      RingPushed(availRing[..], availIdx, Heads(published), r.head);
      HeadsMore(published, r);
      RingBounds(availRing[..], availIdx, Heads(published));
      desc[r.head] := r.kind;
      availRing[Place(availIdx, availRing.Length)] := r.head;
      availIdx := (availIdx + 1) % WRAP;
      published := published + [r];
      assert published[..taken] == old(published[..taken]);
      assert availRing[..] == old(availRing[..])[Place(old(availIdx), availRing.Length) := r.head];
    }

    /** virtio_consume_desc: an entry of the used ring. */
    method ConsumeDesc(descIdx: nat, descLen: nat)
      requires Rings()
      modifies `usedIdx, `used, usedRing
      ensures Rings() && used == old(used) + [(descIdx, descLen)]
    {
      hide RingOf, Place;
      RingPushed(usedRing[..], usedIdx, used, (descIdx, descLen));
      RingBounds(usedRing[..], usedIdx, used);
      var index := usedIdx;
      usedIdx := (index + 1) % WRAP;
      usedRing[Place(index, usedRing.Length)] := (descIdx, descLen);
      used := used + [(descIdx, descLen)];
      assert usedRing[..] == old(usedRing[..])[Place(index, usedRing.Length) := (descIdx, descLen)];
    }

    /** virtio_block_req_end */
    method ReqEnd()
      requires Rings() && req.Answered()
      modifies `usedIdx, `used, usedRing
      ensures Rings() && used == old(used) + [req.Answer()]
    {
      ConsumeDesc(req.head, if req.kind.In? then req.kind.size else 1);
    }

    /** virtio_block_recv_request: refused while a request is in progress; the backend answers at once or later. */
    method RecvRequest(head: nat, kind: Kind) returns (ret: int)
      requires Valid() && taken < |published| && published[taken] == Request(head, kind) && kind != Broken
      modifies `reqInProgress, `req, `usedIdx, `used, usedRing
      ensures Rings() && Pending() && (ret == 0 || ret == -1) && old(used) <= used
      ensures ret == 0 ==> Accounts(taken + 1)
      ensures ret == -1 ==> Accounts(taken) && reqInProgress
    {
      hide RingOf, Answers;
      AnswersMore(published, taken);
      if reqInProgress {
        return -1;
      }
      if kind == Ignored {
        return 0;
      }
      req := Request(head, kind);
      var async: bool := *;
      if async {
        reqInProgress := true;
      } else {
        ReqEnd();
      }
      ret := 0;
    }

    /** One turn of queue_notify. */
    method NotifyTurn() returns (stop: bool)
      requires Valid() && taken < |published|
      modifies `reqInProgress, `req, `usedIdx, `used, usedRing, `lastAvailIdx, `taken
      ensures Valid() && taken == old(taken) + if stop then 0 else 1
      ensures (stop ==> reqInProgress) && old(used) <= used
    {
      hide RingOf, Answers, Place;
      RingGet(availRing[..], availIdx, Heads(published), taken);
      RingBounds(availRing[..], availIdx, Heads(published));
      var descIdx := availRing[Place(lastAvailIdx, availRing.Length)];
      assert published[taken] == Request(descIdx, desc[descIdx]);
      AnswersMore(published, taken);
      if desc[descIdx] != Broken {
        var ret := RecvRequest(descIdx, desc[descIdx]);
        if ret < 0 {
          return true;
        }
      }
      NextNumber(taken);
      lastAvailIdx := (lastAvailIdx + 1) % WRAP;
      taken := taken + 1;
      stop := false;
    }

    /** queue_notify: takes everything that is available, up to a request that has to wait for the one in progress. */
    method QueueNotify()
      requires Valid()
      modifies this, usedRing
      ensures Valid() && published == old(published) && old(taken) <= taken && old(used) <= used
      ensures taken == |published| || reqInProgress
    {
      hide RingOf, Answers, Pending, Accounts;
      var availIdx0 := availIdx;
      while lastAvailIdx != availIdx0
        invariant Valid() && published == old(published) && availIdx == availIdx0
        invariant old(taken) <= taken && old(used) <= used
        decreases |published| - taken
      {
        NumbersDiffer();
        var stop := NotifyTurn();
        if stop { return; }
      }
      NumbersDiffer();
    }

    /** The device and the driver agree on how much there is, although both count modulo 2^16. */
    lemma NumbersDiffer()
      requires Rings()
      ensures lastAvailIdx == availIdx <==> taken == |published|
    {
      SameNumber(taken, |published|);
      hide Place;
    }

    /** virtio_block_req_cb: the request in progress is done, and the next ones are taken. */
    method ReqCb()
      requires Valid() && reqInProgress
      modifies this, usedRing
      ensures Valid() && published == old(published) && old(taken) <= taken
      ensures taken == |published| || reqInProgress
      ensures old(used) + [old(req).Answer()] <= used
    {
      EndProgress();
      QueueNotify();
    }

    method EndProgress()
      requires Valid() && reqInProgress
      modifies `reqInProgress, `usedIdx, `used, usedRing
      ensures Valid() && !reqInProgress && used == old(used) + [req.Answer()]
    {
      hide RingOf, Answers;
      ReqEnd();
      reqInProgress := false;
    }

    /** When nothing is in progress and all is taken, every read and write that was ever made available has its entry in
        the used ring, in the order in which they were made available. */
    lemma AllServed()
      requires Valid() && !reqInProgress && taken == |published|
      ensures used == Answers(published)
    {
      assert published[..taken] == published;
    }
  }

  function CountAnswered(rs: seq<Request>): nat {
    if rs == [] then 0 else CountAnswered(rs[..|rs| - 1]) + (if rs[|rs| - 1].Answered() then 1 else 0)
  }

  /** Exactly once and in order: a read or write has one entry, at the place given by the number of those before it, and
      there are no other entries. */
  lemma {:induction false} AnsweredOnce(rs: seq<Request>, k: nat)
    requires k < |rs| && rs[k].Answered()
    ensures |Answers(rs)| == CountAnswered(rs)
    ensures CountAnswered(rs[..k]) < CountAnswered(rs)
    ensures Answers(rs)[CountAnswered(rs[..k])] == rs[k].Answer()
    decreases |rs|
  {
    var front := rs[..|rs| - 1];
    CountIs(front);
    if k < |rs| - 1 {
      AnsweredOnce(front, k);
      assert front[..k] == rs[..k];
    }
  }

  lemma {:induction false} CountIs(rs: seq<Request>)
    ensures |Answers(rs)| == CountAnswered(rs)
  {
    if rs != [] { CountIs(rs[..|rs| - 1]); }
  }

  function Heads(rs: seq<Request>): (hs: seq<nat>)
    ensures |hs| == |rs|
  {
    seq(|rs|, i requires 0 <= i < |rs| => rs[i].head)
  }

  lemma HeadsMore(rs: seq<Request>, r: Request)
    ensures Heads(rs + [r]) == Heads(rs) + [r.head]
  {
  }

  lemma RingBounds<T>(ring: seq<T>, index: nat, history: seq<T>)
    requires RingOf(ring, index, history)
    ensures 0 < |ring| && index < WRAP
  {
  }
}
