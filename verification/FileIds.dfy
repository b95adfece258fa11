/** The numbers that scan_dir gives to the files with something in them (build_filelist.c). */
module FileIds {
  import opened FileText
  import opened FileNumbers
  import opened FileList
  import opened Quotients
  import opened Widths

  /** The file numbers of a tree, in the order of its lines. */
  ghost function Ids(ns: seq<Node>): seq<nat>
    decreases ns
  {
    if ns == [] then []
    else
      (match ns[0].body
       case Regular(size, id) => if size > 0 then [id] else []
       case Directory(children) => Ids(ns[0].body.children)
       case _ => []) + Ids(ns[1..])
  }

  /** A tree without its file numbers. */
  ghost function Unnumbered(ns: seq<Node>): (r: seq<Node>)
    ensures |r| == |ns|
    decreases ns
  {
    if ns == [] then []
    else
      [match ns[0].body
       case Regular(size, _) => ns[0].(body := Regular(size, 0))
       case Directory(_) => ns[0].(body := Directory(Unnumbered(ns[0].body.children)))
       case _ => ns[0]] + Unnumbered(ns[1..])
  }

  /** Numbers one after the other, modulo 2^64. */
  ghost predicate Consecutive(ids: seq<nat>, first: nat) {
    forall k :: 0 <= k < |ids| ==> ids[k] == (first + k) % U64
  }

  lemma ConsecutiveJoin(a: seq<nat>, b: seq<nat>, first: nat, middle: nat)
    requires Consecutive(a, first) && middle == (first + |a|) % U64 && Consecutive(b, middle)
    ensures Consecutive(a + b, first) && (first + |a + b|) % U64 == (middle + |b|) % U64
  {
    forall k | 0 <= k < |a + b| ensures (a + b)[k] == (first + k) % U64 {
      if k >= |a| { WrapSum(first + |a|, k - |a|); }
    }
    WrapSum(first + |a|, |b|);
  }

  lemma WrapSum(n: nat, k: nat)
    ensures (n % U64 + k) % U64 == (n + k) % U64
  {
  }

  /** Up to 2^64 of them are different. */
  lemma Distinct(ids: seq<nat>, first: nat, j: nat, k: nat)
    requires Consecutive(ids, first) && j < k < |ids| <= U64
    ensures ids[j] != ids[k]
  {
    DifferentRemainders(first + j, first + k, U64);
  }

  lemma IdsOf(n: Node, rest: seq<Node>)
    ensures Ids([n] + rest) ==
            (if n.body.Directory? then Ids(n.body.children)
             else if n.body.Regular? && n.body.size > 0 then [n.body.fileId] else []) + Ids(rest)
    ensures Unnumbered([n] + rest) ==
            [if n.body.Directory? then n.(body := Directory(Unnumbered(n.body.children)))
             else if n.body.Regular? then n.(body := Regular(n.body.size, 0)) else n] + Unnumbered(rest)
  {
    assert ([n] + rest)[1..] == rest;
  }

  /** A file takes the next number. */
  lemma OneId(n: Node, next: nat)
    requires next < U64 && !n.body.Directory?
    ensures var m := NumberedOne(n, next);
      var ids := if m.body.Regular? && m.body.size > 0 then [m.body.fileId] else [];
      && Consecutive(ids, next) && NextNumber(n, next) == (next + |ids|) % U64 && !m.body.Directory?
      && (if m.body.Regular? then m.(body := Regular(m.body.size, 0)) else m)
         == (if n.body.Regular? then n.(body := Regular(n.body.size, 0)) else n)
  {
  }

  lemma {:induction false} NumbersAre(ns: seq<Node>, next: nat)
    requires Shaped(ns) && next < U64
    ensures var (tree, last) := Numbered(ns, next);
      && Consecutive(Ids(tree), next) && last == (next + |Ids(tree)|) % U64 && Unnumbered(tree) == Unnumbered(ns)
    decreases ns
  {
    hide *;
    if ns == [] {
      NoNumbers(ns, next);
    } else {
      ShapedParts(ns);
      assert ns == [ns[0]] + ns[1..];
      IdsOf(ns[0], ns[1..]);
      if ns[0].body.Directory? {
        NumberedDirectory(ns, next);
        var c := Numbered(ns[0].body.children, next);
        NumbersAre(ns[0].body.children, next);
        NumbersAre(ns[1..], c.1);
        var r := Numbered(ns[1..], c.1);
        IdsOf(ns[0].(body := Directory(c.0)), r.0);
        ConsecutiveJoin(Ids(c.0), Ids(r.0), next, c.1);
      } else {
        NumberedFile(ns, next);
        OneId(ns[0], next);
        var m := NextNumber(ns[0], next);
        var r := Numbered(ns[1..], m);
        NumbersAre(ns[1..], m);
        var n := NumberedOne(ns[0], next);
        IdsOf(n, r.0);
        ConsecutiveJoin(if n.body.Regular? && n.body.size > 0 then [n.body.fileId] else [], Ids(r.0), next, m);
      }
    }
  }

  lemma NoNumbers(ns: seq<Node>, next: nat)
    requires ns == [] && Shaped(ns) && next < U64
    ensures Numbered(ns, next) == ([], next) && Ids([]) == [] && Unnumbered([]) == [] && Consecutive([], next)
    ensures (next + 0) % U64 == next
  {
  }

  /** The list of a tree, as it is read from a text: the tree, and numbers for the files one after the other. */
  ghost predicate Lists(t: Text, p: nat, ns: seq<Node>, first: nat, next: nat)
    requires p <= |t|
  {
    var r := ListAt(t, p);
    && r.Done? && Unnumbered(r.value) == Unnumbered(ns)
    && Consecutive(Ids(r.value), first) && next == (first + |Ids(r.value)|) % U64
  }

  /** What scan_dir prints for a tree whose names survive is read back as the tree, with consecutive numbers for the
      files that have something in them; the number left is the next one. */
  method ListTree(f: Text, ns: seq<Node>, first: nat) returns (out: Text, next: nat)
    requires Shaped(ns) && first < U64
    ensures f <= out && (Named(ns) ==> forall after: Text :: Lists(out + after, |f|, ns, first, next))
  {
    hide *;
    out, next := ScanDir(f, ns, first);
    if Named(ns) {
      NamedIsUncut(ns);
      NumbersAre(ns, first);
      forall after: Text ensures Lists(out + after, |f|, ns, first, next) {
        TreeSurvives(ns, first, f, after);
        ListsIs(out + after, |f|, ns, first, next, Numbered(ns, first).0);
      }
    }
  }

  lemma ListsIs(t: Text, p: nat, ns: seq<Node>, first: nat, next: nat, tree: seq<Node>)
    requires p <= |t| && ListAt(t, p).Done? && ListAt(t, p).value == tree && Unnumbered(tree) == Unnumbered(ns)
    requires Consecutive(Ids(tree), first) && next == (first + |Ids(tree)|) % U64
    ensures Lists(t, p, ns, first, next)
  {
    hide ListAt, Ids, Unnumbered, Consecutive;
  }
}
