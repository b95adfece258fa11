/** The file list: the tree that build_filelist.c prints (scan_dir) is the tree that fs_net.c builds from it
    (filelist_load_rec). */
module FileList {
  import opened FileText
  import opened FileNumbers
  import opened Widths

  const COMMENT: Byte := 35
  const CHR: nat := 2
  const DIR: nat := 4
  const BLK: nat := 6
  const REG: nat := 8
  const LNK: nat := 10

  datatype Body =
    | Device(major: nat, minor: nat)
    | Regular(size: nat, fileId: nat)
    | Directory(children: seq<Node>)
    | Symlink(target: Text)
    | Other

  datatype Node = Node(typ: nat, mode: nat, uid: nat, gid: nat, time: Time, name: Text, body: Body)

  // ----- printing

  /** The end of a line, from the name on. */
  function LinkText(b: Body): Text {
    match b
    case Symlink(target) => [SPACE] + Printed(target) + [NEWLINE]
    case Regular(size, fileId) => if size > 0 then [SPACE] + Digits(fileId, 16) + [NEWLINE] else [NEWLINE]
    case _ => [NEWLINE]
  }

  function NameText(n: Node): Text {
    [SPACE] + Printed(n.name) + LinkText(n.body)
  }

  function TimeAndName(n: Node): Text
    requires n.time.nsec < BILLION
  {
    [SPACE] + TimeText(n.time.sec, n.time.nsec) + NameText(n)
  }

  function BodyText(n: Node): Text
    requires n.time.nsec < BILLION
  {
    match n.body
    case Device(major, minor) => [SPACE] + Digits(major, 10) + ([SPACE] + Digits(minor, 10) + TimeAndName(n))
    case Regular(size, _) => [SPACE] + Digits(size, 10) + TimeAndName(n)
    case _ => TimeAndName(n)
  }

  function LineText(n: Node): Text
    requires n.time.nsec < BILLION
  {
    Padded(n.typ * 4096 + n.mode, 8, 6)
    + ([SPACE] + Digits(n.uid, 10) + ([SPACE] + Digits(n.gid, 10) + BodyText(n)))
  }

  /** An entry as lstat and readdir give it. */
  predicate ShapedLine(n: Node) {
    && n.typ < 16 && n.mode < 4096 && n.uid < U32 && n.gid < U32 && n.time.sec < U32 && n.time.nsec < BILLION
    && CString(n.name)
    && match n.body
       case Device(major, minor) => (n.typ == CHR || n.typ == BLK) && major < U32 && minor < U32
       case Regular(size, fileId) => n.typ == REG && size < U64 && fileId < U64 && (size == 0 ==> fileId == 0)
       case Directory(_) => n.typ == DIR
       case Symlink(target) => n.typ == LNK && CString(target)
       case Other => n.typ != CHR && n.typ != BLK && n.typ != REG && n.typ != DIR && n.typ != LNK
  }

  ghost predicate Shaped(ns: seq<Node>)
    decreases ns
  {
    forall i :: 0 <= i < |ns| ==> ShapedLine(ns[i]) && (ns[i].body.Directory? ==> Shaped(ns[i].body.children))
  }

  /** The name and the link target survive. */
  predicate NamedLine(n: Node)
    requires ShapedLine(n)
  {
    GoodName(n.name) && (n.body.Symlink? ==> GoodName(n.body.target))
  }

  /** All names and link targets survive. */
  ghost predicate Named(ns: seq<Node>)
    requires Shaped(ns)
    decreases ns
  {
    forall i :: 0 <= i < |ns| ==> NamedLine(ns[i]) && (ns[i].body.Directory? ==> Named(ns[i].body.children))
  }

  /** What scan_dir prints for a directory. */
  ghost function ListText(ns: seq<Node>): Text
    requires Shaped(ns)
    decreases ns
  {
    if ns == [] then [DOT, NEWLINE]
    else
      LineText(ns[0])
      + ((if ns[0].body.Directory? then ListText(ns[0].body.children) else []) + ListText(ns[1..]))
  }

  // ----- reading

  function SkipLine(t: Text, p: nat): (q: nat)
    requires p <= |t|
    ensures p <= q <= |t| && (Char(t, p) != 0 ==> p < q)
    decreases |t| - p
  {
    if Char(t, p) == NEWLINE then p + 1 else if Char(t, p) == 0 then p else SkipLine(t, p + 1)
  }

  /** The link target or the file id, and the rest of the line. */
  function LinkAt(t: Text, p: nat, n: Node): (r: Parsed<Node>)
    requires p <= |t|
    ensures r.Done? ==> p <= r.next <= |t|
  {
    if n.typ == LNK then
      match NameAt(t, p)
      case Fail => Fail
      case Done(target, q) => Done(n.(body := Symlink(target)), SkipLine(t, q))
    else if n.typ == REG && n.body.Regular? && n.body.size > 0 then
      match NumberAt(t, p, 16, U64)
      case Fail => Fail
      case Done(id, q) => Done(n.(body := Regular(n.body.size, id)), SkipLine(t, q))
    else Done(n, SkipLine(t, p))
  }

  function TimeAndNameAt(t: Text, p: nat, n: Node): (r: Parsed<Node>)
    requires p <= |t|
    ensures r.Done? ==> p <= r.next <= |t|
  {
    match TimeAt(t, p)
    case Fail => Fail
    case Done(time, q) =>
      match NameAt(t, q)
      case Fail => Fail
      case Done(name, q) => LinkAt(t, q, n.(time := time, name := name))
  }

  function BodyAt(t: Text, p: nat, n: Node): (r: Parsed<Node>)
    requires p <= |t|
    ensures r.Done? ==> p <= r.next <= |t|
  {
    if n.typ == CHR || n.typ == BLK then
      match NumberAt(t, p, 0, U32)
      case Fail => Fail
      case Done(major, q) =>
        match NumberAt(t, q, 0, U32)
        case Fail => Fail
        case Done(minor, q) => TimeAndNameAt(t, q, n.(body := Device(major, minor)))
    else if n.typ == REG then
      match NumberAt(t, p, 0, U64)
      case Fail => Fail
      case Done(size, q) => TimeAndNameAt(t, q, n.(body := Regular(size, 0)))
    else TimeAndNameAt(t, p, n.(body := if n.typ == DIR then Directory([]) else Other))
  }

  /** A line; the entries of a directory are not read yet. */
  function LineAt(t: Text, p: nat): (r: Parsed<Node>)
    requires p <= |t|
    ensures r.Done? ==> p < r.next <= |t|
  {
    match NumberAt(t, p, 8, U32)
    case Fail => Fail
    case Done(m, q) =>
      match NumberAt(t, q, 0, U32)
      case Fail => Fail
      case Done(uid, q) =>
        match NumberAt(t, q, 0, U32)
        case Fail => Fail
        case Done(gid, q) => BodyAt(t, q, Node(m / 4096, m % 4096, uid, gid, Time(0, 0), [], Other))
  }

  /** What filelist_load_rec builds. */
  function ListAt(t: Text, p: nat): (r: Parsed<seq<Node>>)
    requires p <= |t|
    ensures r.Done? ==> p <= r.next <= |t|
    decreases |t| - p
  {
    var c := Char(t, p);
    if c == 0 then Done([], p)
    else if c == COMMENT then ListAt(t, SkipLine(t, p))
    else if c == DOT then Done([], SkipLine(t, p + 1))
    else
      match LineAt(t, p)
      case Fail => Fail
      case Done(n, q) =>
        if n.typ == DIR then
          match ListAt(t, q)
          case Fail => Fail
          case Done(children, q) => Cons(n.(body := Directory(children)), ListAt(t, q))
        else Cons(n, ListAt(t, q))
  }

  function Cons(n: Node, r: Parsed<seq<Node>>): Parsed<seq<Node>> {
    match r
    case Fail => Fail
    case Done(ns, q) => Done([n] + ns, q)
  }

  // ----- what is printed is read back

  predicate GoodLine(n: Node) { ShapedLine(n) && NamedLine(n) }

  /** A field and the character after it. */
  lemma Field(t: Text, p: nat, x: Text, tail: Text)
    requires At(t, p, x + tail) && tail != []
    ensures At(t, p, x + [tail[0]]) && At(t, p + |x|, tail) && Char(t, p + |x|) == tail[0]
  {
    assert x + tail == (x + [tail[0]]) + tail[1..];
    AtSplit(t, p, x + [tail[0]], tail[1..]);
    AtSplit(t, p, x, tail);
    AtChar(t, p + |x|, tail, 0);
  }

  lemma LineEnds(t: Text, p: nat)
    requires At(t, p, [NEWLINE])
    ensures p < |t| && SkipLine(t, p) == p + 1
  {
    AtChar(t, p, [NEWLINE], 0);
  }

  lemma NameField(t: Text, p: nat, s: Text, tail: Text)
    requires CString(s) && GoodName(s) && tail != [] && (tail[0] == SPACE || tail[0] == NEWLINE) &&
             At(t, p, [SPACE] + Printed(s) + tail)
    ensures p <= |t| && NameAt(t, p) == Done(s, p + 1 + |Printed(s)|) && At(t, p + 1 + |Printed(s)|, tail)
  {
    Field(t, p, [SPACE] + Printed(s), tail);
    NameBackIff(t, p, s, tail[0]);
    hide NameAt, Printed, NeedsQuotes;
  }

  lemma NumberField(t: Text, p: nat, n: nat, base: nat, width: nat, tail: Text)
    requires n < width <= U64
    requires (base == 10 || base == 16) && tail != [] && EndsNumber(tail[0]) &&
             At(t, p, [SPACE] + Digits(n, base) + tail)
    ensures p <= |t| && NumberAt(t, p, if base == 10 then 0 else base, width) == Done(n, p + 1 + |Digits(n, base)|)
    ensures At(t, p + 1 + |Digits(n, base)|, tail)
  {
    hide NumberAt, Digits, EndsNumber;
    Field(t, p, [SPACE] + Digits(n, base), tail);
    NumberBack(t, p, n, base, width, tail[0]);
  }

  lemma LinkBack(t: Text, p: nat, n: Node, m: Node)
    requires GoodLine(n) && At(t, p, LinkText(n.body)) && m == n.(body := Unlinked(n.body))
    ensures p <= |t| && LinkAt(t, p, m) == Done(Bare(n), p + |LinkText(n.body)|)
  {
    hide NameAt, NumberAt, Printed, Digits, SkipLine, GoodName, CString;
    match n.body
    case Symlink(target) =>
      NameField(t, p, target, [NEWLINE]);
      LineEnds(t, p + 1 + |Printed(target)|);
    case Regular(size, id) =>
      if size > 0 {
        NumberField(t, p, id, 16, U64, [NEWLINE]);
        LineEnds(t, p + 1 + |Digits(id, 16)|);
      } else {
        LineEnds(t, p);
      }
    case _ => LineEnds(t, p);
  }

  /** A body before its link or file id is read. */
  function Unlinked(b: Body): Body {
    match b
    case Symlink(_) => Other
    case Regular(size, _) => Regular(size, 0)
    case Directory(_) => Directory([])
    case _ => b
  }

  /** An entry without what is in it. */
  function Bare(n: Node): Node {
    if n.body.Directory? then n.(body := Directory([])) else n
  }

  lemma LinkBegins(b: Body)
    ensures LinkText(b) != [] && (LinkText(b)[0] == SPACE || LinkText(b)[0] == NEWLINE)
  {
  }

  lemma TimeAndNameBack(t: Text, p: nat, n: Node, m: Node)
    requires GoodLine(n) && At(t, p, TimeAndName(n))
    requires m.(time := n.time, name := n.name) == n.(body := Unlinked(n.body))
    ensures p <= |t| && TimeAndNameAt(t, p, m) == Done(Bare(n), p + |TimeAndName(n)|)
  {
    hide TimeText, NameAt, TimeAt, LinkAt, LinkText, Printed, At, Unlinked, Bare, GoodName;
    var x := TimeText(n.time.sec, n.time.nsec);
    Field(t, p, [SPACE] + x, NameText(n));
    TimeBack(t, p, n.time.sec, n.time.nsec);
    var q := p + 1 + |x|;
    LinkBegins(n.body);
    NameField(t, q, n.name, LinkText(n.body));
    LinkBack(t, q + 1 + |Printed(n.name)|, n, n.(body := Unlinked(n.body)));
  }

  lemma TimeBegins(n: Node)
    requires n.time.nsec < BILLION
    ensures TimeAndName(n) != [] && TimeAndName(n)[0] == SPACE
  {
  }

  lemma BodyBack(t: Text, p: nat, n: Node, m: Node)
    requires GoodLine(n) && At(t, p, BodyText(n))
    requires m == n.(time := m.time, name := m.name, body := m.body)
    ensures p <= |t| && BodyAt(t, p, m) == Done(Bare(n), p + |BodyText(n)|)
  {
    hide TimeAndName, TimeAndNameAt, NumberAt, Digits, GoodName, Bare;
    var tail := TimeAndName(n);
    TimeBegins(n);
    match n.body
    case Device(major, minor) =>
      NumberField(t, p, major, 10, U32, [SPACE] + Digits(minor, 10) + tail);
      var q := p + 1 + |Digits(major, 10)|;
      NumberField(t, q, minor, 10, U32, tail);
      TimeAndNameBack(t, q + 1 + |Digits(minor, 10)|, n, m.(body := n.body));
    case Regular(size, id) =>
      NumberField(t, p, size, 10, U64, tail);
      TimeAndNameBack(t, p + 1 + |Digits(size, 10)|, n, m.(body := Regular(size, 0)));
    case Directory(_) => TimeAndNameBack(t, p, n, m.(body := Directory([])));
    case _ => TimeAndNameBack(t, p, n, m.(body := Other));
  }

  lemma BodyBegins(n: Node)
    requires n.time.nsec < BILLION
    ensures BodyText(n) != [] && BodyText(n)[0] == SPACE
  {
    TimeBegins(n);
  }

  /** The fields of a line up to the group. */
  lemma LineFields(t: Text, p: nat, n: Node) returns (b: nat)
    requires ShapedLine(n) && At(t, p, LineText(n))
    ensures p <= b <= |t| && At(t, b, BodyText(n)) && b + |BodyText(n)| == p + |LineText(n)|
    ensures LineAt(t, p) == BodyAt(t, b, Node(n.typ, n.mode, n.uid, n.gid, Time(0, 0), [], Other))
  {
    hide BodyText, BodyAt, NumberAt, Digits, CString, Padded;
    var m := n.typ * 4096 + n.mode;
    var x, body := Padded(m, 8, 6), BodyText(n);
    var g := [SPACE] + Digits(n.gid, 10) + body;
    var u := [SPACE] + Digits(n.uid, 10) + g;
    BodyBegins(n);
    Field(t, p, x, u);
    AtSplit(t, p, x, u);
    PaddedBack(t, p, m, 6, U32);
    var q := p + |x|;
    NumberField(t, q, n.uid, 10, U32, g);
    var r := q + 1 + |Digits(n.uid, 10)|;
    NumberField(t, r, n.gid, 10, U32, body);
    b := r + 1 + |Digits(n.gid, 10)|;
    assert m / 4096 == n.typ && m % 4096 == n.mode;
  }

  lemma LineBack(t: Text, p: nat, n: Node)
    requires GoodLine(n) && At(t, p, LineText(n))
    ensures p <= |t| && LineAt(t, p) == Done(Bare(n), p + |LineText(n)|)
  {
    hide BodyText, BodyAt, LineText, LineAt, NamedLine, CString, Bare;
    var b := LineFields(t, p, n);
    BodyBack(t, b, n, Node(n.typ, n.mode, n.uid, n.gid, Time(0, 0), [], Other));
  }

  /** Every tree that is printed is read back. */
  lemma {:induction false} ListBack(t: Text, p: nat, ns: seq<Node>)
    requires Shaped(ns) && Named(ns) && At(t, p, ListText(ns))
    ensures p <= |t| && ListAt(t, p) == Done(ns, p + |ListText(ns)|)
    decreases ns
  {
    hide *;
    ListTextIs(ns);
    if ns == [] {
      EndBack(t, p);
    } else {
      NamedParts(ns);
      NamedLineIsGood(ns[0]);
      var n, rest := ns[0], ns[1..];
      var inner := if n.body.Directory? then ListText(n.body.children) else [];
      AtSplit(t, p, LineText(n), inner + ListText(rest));
      var q := p + |LineText(n)|;
      AtSplit(t, q, inner, ListText(rest));
      LineBack(t, p, n);
      LineBegins(t, p, n);
      if n.body.Directory? {
        ListBack(t, q, n.body.children);
      }
      ListAtEntry(t, p, n, q, q + |inner|);
      ListBack(t, q + |inner|, rest);
      ConsIs(n, rest, q + |inner| + |ListText(rest)|);
    }
  }

  lemma NamedLineIsGood(n: Node)
    requires ShapedLine(n)
    ensures NamedLine(n) <==> GoodLine(n)
  {
  }

  lemma ConsIs(n: Node, rest: seq<Node>, q: nat)
    ensures Cons(n, Done(rest, q)) == Done([n] + rest, q)
  {
  }

  lemma EndBack(t: Text, p: nat)
    requires At(t, p, [DOT, NEWLINE])
    ensures p <= |t| && ListAt(t, p) == Done([], p + 2)
  {
    AtSplit(t, p, [DOT], [NEWLINE]);
    AtChar(t, p, [DOT], 0);
    LineEnds(t, p + 1);
    hide At;
  }

  lemma ListTextIs(ns: seq<Node>)
    requires Shaped(ns)
    ensures ns == [] ==> ListText(ns) == [DOT, NEWLINE]
    ensures ns != [] ==> ShapedLine(ns[0]) && ns[0].time.nsec < BILLION && Shaped(ns[1..])
    ensures ns != [] && ns[0].body.Directory? ==> Shaped(ns[0].body.children)
    ensures ns != [] ==>
              ListText(ns) == LineText(ns[0])
                              + ((if ns[0].body.Directory? then ListText(ns[0].body.children) else []) +
                                 ListText(ns[1..]))
    ensures ns != [] ==> ns == [ns[0]] + ns[1..]
  {
    hide LineText, ShapedLine;
    if ns != [] { LineIsTimely(ns[0]); }
  }

  lemma LineIsTimely(n: Node)
    requires ShapedLine(n)
    ensures n.time.nsec < BILLION
  {
  }

  lemma NamedParts(ns: seq<Node>)
    requires Shaped(ns) && ns != [] && ShapedLine(ns[0]) && Shaped(ns[1..])
    requires ns[0].body.Directory? ==> Shaped(ns[0].body.children)
    ensures Named(ns) <==>
              && NamedLine(ns[0]) && Named(ns[1..])
              && (ns[0].body.Directory? ==> Named(ns[0].body.children))
  {
    hide NamedLine, ShapedLine, Shaped;
  }

  /** The reader at a line. */
  lemma ListAtEntry(t: Text, p: nat, n: Node, q: nat, r: nat)
    requires p <= |t| && q <= |t| && r <= |t| && GoodLine(n) && LineAt(t, p) == Done(Bare(n), q)
    requires Char(t, p) != 0 && Char(t, p) != COMMENT && Char(t, p) != DOT
    requires if n.body.Directory? then ListAt(t, q) == Done(n.body.children, r) else r == q
    ensures ListAt(t, p) == Cons(n, ListAt(t, r))
  {
    hide LineAt, Cons, SkipLine, GoodName;
  }

  lemma LineBegins(t: Text, p: nat, n: Node)
    requires n.time.nsec < BILLION && At(t, p, LineText(n))
    ensures var c := Char(t, p); c != 0 && c != COMMENT && c != DOT
  {
    var x := Padded(n.typ * 4096 + n.mode, 8, 6);
    DigitsBegin(n.typ * 4096 + n.mode, 8);
    assert x != [] && 48 <= x[0];
    AtChar(t, p, LineText(n), 0);
  }

  lemma {:induction false} DigitsBegin(n: nat, base: nat)
    requires 2 <= base <= 16
    ensures 48 <= Digits(n, base)[0]
  {
    if n >= base { DigitsBegin(n / base, base); }
  }

  // ----- the reading code

  function Prepend(ns: seq<Node>, r: Parsed<seq<Node>>): Parsed<seq<Node>> {
    match r
    case Fail => Fail
    case Done(ms, q) => Done(ns + ms, q)
  }

  lemma PrependNone(r: Parsed<seq<Node>>)
    ensures Prepend([], r) == r
  {
    if r.Done? { assert [] + r.value == r.value; }
  }

  lemma PrependCons(ns: seq<Node>, n: Node, r: Parsed<seq<Node>>)
    ensures Prepend(ns, Cons(n, r)) == Prepend(ns + [n], r)
  {
    if r.Done? { assert ns + ([n] + r.value) == ns + [n] + r.value; }
  }

  /** The fields of a line from the time on. */
  method LoadNames(t: Text, p: nat, n0: Node) returns (r: Parsed<Node>)
    requires p <= |t|
    ensures r == TimeAndNameAt(t, p, n0)
  {
    hide TimeAt, NameAt, NumberAt, SkipLine;
    var time := ParseTime(t, p);
    if time.Fail? {
      return Fail;
    }
    var fname := ParseFname(t, time.next);
    if fname.Fail? {
      return Fail;
    }
    var n, q := n0.(time := time.value, name := fname.value), fname.next;
    if n.typ == LNK {
      var lname := ParseFname(t, q);
      if lname.Fail? {
        return Fail;
      }
      n, q := n.(body := Symlink(lname.value)), lname.next;
    } else if n.typ == REG && n.body.Regular? && n.body.size > 0 {
      var id := NumberAt(t, q, 16, U64);
      if id.Fail? {
        return Fail;
      }
      n, q := n.(body := Regular(n.body.size, id.value)), id.next;
    }
    r := Done(n, SkipLine(t, q));
  }

  /** A line of the file list. */
  method LoadLine(t: Text, p: nat) returns (r: Parsed<Node>)
    requires p <= |t|
    ensures r == LineAt(t, p)
  {
    hide NumberAt, TimeAndNameAt;
    var m := NumberAt(t, p, 8, U32);
    if m.Fail? { return Fail; }
    var uid := NumberAt(t, m.next, 0, U32);
    if uid.Fail? { return Fail; }
    var gid := NumberAt(t, uid.next, 0, U32);
    if gid.Fail? { return Fail; }
    var n, q := Node(m.value / 4096, m.value % 4096, uid.value, gid.value, Time(0, 0), [], Other), gid.next;
    if n.typ == CHR || n.typ == BLK {
      var major := NumberAt(t, q, 0, U32);
      if major.Fail? { return Fail; }
      var minor := NumberAt(t, major.next, 0, U32);
      if minor.Fail? { return Fail; }
      n, q := n.(body := Device(major.value, minor.value)), minor.next;
    } else if n.typ == REG {
      var size := NumberAt(t, q, 0, U64);
      if size.Fail? { return Fail; }
      n, q := n.(body := Regular(size.value, 0)), size.next;
    } else if n.typ == DIR {
      n := n.(body := Directory([]));
    }
    r := LoadNames(t, q, n);
  }

  /** filelist_load_rec */
  method FilelistLoadRec(t: Text, p0: nat) returns (r: Parsed<seq<Node>>)
    requires p0 <= |t|
    ensures r == ListAt(t, p0)
    decreases |t| - p0
  {
    hide LineAt, Cons, Prepend;
    var p: nat, dir: seq<Node> := p0, [];
    PrependNone(ListAt(t, p));
    while true
      invariant p0 <= p <= |t| && ListAt(t, p0) == Prepend(dir, ListAt(t, p))
      decreases |t| - p
    {
      if Char(t, p) == 0 {
        break;
      }
      if Char(t, p) == COMMENT {
        p := SkipLine(t, p);
        continue;
      }
      if Char(t, p) == DOT {
        PrependEnd(dir, SkipLine(t, p + 1));
        p := SkipLine(t, p + 1);
        return Done(dir, p);
      }
      var line := LoadLine(t, p);
      if line.Fail? {
        PrependFail(dir);
        return Fail;
      }
      var n, q := line.value, line.next;
      if n.typ == DIR {
        var inner := FilelistLoadRec(t, q);
        if inner.Fail? {
          PrependFail(dir);
          return Fail;
        }
        n, q := n.(body := Directory(inner.value)), inner.next;
      }
      PrependCons(dir, n, ListAt(t, q));
      dir, p := dir + [n], q;
    }
    PrependEnd(dir, p);
    r := Done(dir, p);
  }

  lemma PrependFail(ns: seq<Node>)
    ensures Prepend(ns, Fail) == Fail
  {
  }

  lemma PrependEnd(ns: seq<Node>, q: nat)
    ensures Prepend(ns, Done([], q)) == Done(ns, q)
  {
    assert ns + [] == ns;
  }

  // ----- the printing code

  /** A file gets the next number if there is something in it. */
  function NumberedOne(n: Node, next: nat): Node {
    if n.body.Regular? then n.(body := Regular(n.body.size, if n.body.size > 0 then next else 0)) else n
  }

  function NextNumber(n: Node, next: nat): nat {
    if n.body.Regular? && n.body.size > 0 then (next + 1) % U64 else next
  }

  /** How much of a link target readlink delivers. */
  const LINK_MAX: nat := 1023

  function CutLink(n: Node): Node {
    match n.body
    case Symlink(target) => if |target| > LINK_MAX then n.(body := Symlink(target[..LINK_MAX])) else n
    case _ => n
  }

  /** A tree as readlink delivers its links. */
  ghost function Cut(ns: seq<Node>): (cs: seq<Node>)
    ensures |cs| == |ns| && (Shaped(ns) ==> Shaped(cs))
    decreases ns
  {
    if ns == [] then []
    else
      var n := ns[0];
      [if n.body.Directory? then n.(body := Directory(Cut(n.body.children))) else CutLink(n)] + Cut(ns[1..])
  }

  lemma CutKind(n: Node)
    ensures CutLink(n).body.Directory? <==> n.body.Directory?
  {
  }

  lemma CutParts(ns: seq<Node>)
    requires ns != []
    ensures Cut(ns) != [] && Cut(ns)[1..] == Cut(ns[1..]) && Cut(ns) == [Cut(ns)[0]] + Cut(ns[1..])
    ensures Cut(ns)[0] == if ns[0].body.Directory? then ns[0].(body := Directory(Cut(ns[0].body.children)))
                          else CutLink(ns[0])
  {
    hide Shaped, CutLink;
  }

  /** A tree with the numbers that scan_dir gives to its files, and the next number. */
  ghost function Numbered(ns: seq<Node>, next: nat): (r: (seq<Node>, nat))
    requires Shaped(ns) && next < U64
    ensures Shaped(r.0) && |r.0| == |ns| && r.1 < U64
    decreases ns
  {
    if ns == [] then ([], next)
    else
      var n := NumberedOne(ns[0], next);
      var (children, after) := if n.body.Directory? then Numbered(ns[0].body.children, NextNumber(n, next))
        else ([], NextNumber(n, next));
      var (rest, last) := Numbered(ns[1..], after);
      ([if n.body.Directory? then n.(body := Directory(children)) else n] + rest, last)
  }

  /** The line of an entry. */
  method PrintLine(f: Text, n: Node) returns (out: Text)
    requires n.time.nsec < BILLION
    ensures out == f + LineText(n)
  {
    hide Padded, Digits, BodyText;
    out := f + Padded(n.typ * 4096 + n.mode, 8, 6) + [SPACE] + Digits(n.uid, 10) + [SPACE] + Digits(n.gid, 10);
    out := PrintBody(out, n);
  }

  method PrintBody(f: Text, n: Node) returns (out: Text)
    requires n.time.nsec < BILLION
    ensures out == f + BodyText(n)
  {
    hide Digits, TimeAndName;
    out := f;
    if n.body.Device? {
      out := out + [SPACE] + Digits(n.body.major, 10) + [SPACE] + Digits(n.body.minor, 10);
    }
    if n.body.Regular? {
      out := out + [SPACE] + Digits(n.body.size, 10);
    }
    out := PrintEnd(out, n);
  }

  method PrintEnd(f: Text, n: Node) returns (out: Text)
    requires n.time.nsec < BILLION
    ensures out == f + TimeAndName(n)
  {
    hide Digits, TimeText, Printed;
    out := PrintTime(f + [SPACE], n.time.sec, n.time.nsec);
    out := PrintStr(out + [SPACE], n.name);
    ghost var named := out;
    if n.body.Symlink? {
      out := PrintStr(out + [SPACE], n.body.target);
    } else if n.body.Regular? && n.body.size > 0 {
      out := out + [SPACE] + Digits(n.body.fileId, 16);
    }
    out := out + [NEWLINE];
    assert out == named + LinkText(n.body);
  }

  lemma LineTextOfDirectory(n: Node, children: seq<Node>)
    requires n.body.Directory? && n.time.nsec < BILLION
    ensures LineText(n.(body := Directory(children))) == LineText(n)
  {
    hide TimeText, Padded, Digits;
  }

  lemma ShapedParts(ns: seq<Node>)
    requires Shaped(ns) && ns != []
    ensures Shaped(ns[1..]) && ShapedLine(ns[0]) && ns[0].time.nsec < BILLION &&
            (ns[0].body.Directory? ==> Shaped(ns[0].body.children))
  {
  }

  lemma NumberedFile(ns: seq<Node>, next: nat)
    requires Shaped(ns) && ns != [] && !ns[0].body.Directory? && Shaped(ns[1..]) && next < U64
    ensures NextNumber(ns[0], next) < U64
    ensures var n := NumberedOne(ns[0], next); var r := Numbered(ns[1..], NextNumber(ns[0], next));
            Numbered(ns, next) == ([n] + r.0, r.1) && !n.body.Directory? && n.time == ns[0].time
  {
    hide Shaped;
  }

  lemma NumberedDirectory(ns: seq<Node>, next: nat)
    requires Shaped(ns) && ns != [] && ns[0].body.Directory? && Shaped(ns[1..]) && Shaped(ns[0].body.children)
    requires next < U64
    ensures var c := Numbered(ns[0].body.children, next); var r := Numbered(ns[1..], c.1);
            Numbered(ns, next) == ([ns[0].(body := Directory(c.0))] + r.0, r.1)
  {
    hide Shaped;
  }

  lemma ListTextOfCons(n: Node, rest: seq<Node>)
    requires Shaped([n] + rest) && Shaped(rest) && n.time.nsec < BILLION &&
             (n.body.Directory? ==> Shaped(n.body.children))
    ensures ListText([n] + rest) == LineText(n) +
            ((if n.body.Directory? then ListText(n.body.children) else []) + ListText(rest))
  {
    hide LineText, Shaped;
    assert ([n] + rest)[1..] == rest;
  }

  lemma Assoc3(a: Text, b: Text, c: Text, d: Text)
    ensures a + (b + (c + d)) == a + b + c + d
  {
  }

  /** scan_dir: the entries in the order in which they are found, and the number for the next file. */
  method ScanDir(f: Text, ns: seq<Node>, next0: nat) returns (out: Text, next: nat)
    requires Shaped(ns) && next0 < U64
    ensures out == f + ListText(Numbered(Cut(ns), next0).0) && next == Numbered(Cut(ns), next0).1
    decreases ns
  {
    hide LineText, NumberedOne, NextNumber, CutLink;
    out, next := f, next0;
    var i := 0;
    assert ns[0..] == ns;
    while i < |ns|
      invariant i <= |ns| && Shaped(ns[i..]) && next < U64
      invariant out + ListText(Numbered(Cut(ns[i..]), next).0) == f + ListText(Numbered(Cut(ns), next0).0)
      invariant Numbered(Cut(ns[i..]), next).1 == Numbered(Cut(ns), next0).1
    {
      out, next := ScanEntry(out, ns, i, next);
      i := i + 1;
    }
    assert ns[i..] == [];
    out := out + [DOT, NEWLINE];
  }

  /** An entry, and what is in it. */
  method ScanEntry(f: Text, ns: seq<Node>, i: nat, next0: nat) returns (out: Text, next: nat)
    requires i < |ns| && Shaped(ns) && Shaped(ns[i..]) && next0 < U64
    ensures Shaped(ns[i + 1..]) && next < U64
    ensures out + ListText(Numbered(Cut(ns[i + 1..]), next).0) == f + ListText(Numbered(Cut(ns[i..]), next0).0)
    ensures Numbered(Cut(ns[i + 1..]), next).1 == Numbered(Cut(ns[i..]), next0).1
    decreases ns, 0
  {
    hide *;
    ghost var tail, rest := ns[i..], ns[i + 1..];
    assert tail[0] == ns[i] && tail[1..] == rest;
    ShapedParts(tail);
    CutParts(tail);
    ghost var sent := Cut(tail);
    ShapedParts(sent);
    if ns[i].body.Directory? {
      NumberedDirectory(sent, next0);
      ghost var c := Numbered(Cut(ns[i].body.children), next0);
      ghost var n := ns[i].(body := Directory(c.0));
      LineTextOfDirectory(ns[i], c.0);
      ListTextOfCons(n, Numbered(Cut(rest), c.1).0);
      out := PrintLine(f, ns[i]);
      out, next := ScanDir(out, ns[i].body.children, next0);
      Assoc3(f, LineText(n), ListText(c.0), ListText(Numbered(Cut(rest), c.1).0));
    } else {
      CutKind(ns[i]);
      NumberedFile(sent, next0);
      var entry := CutLink(ns[i]);
      var n := NumberedOne(entry, next0);
      next := NextNumber(entry, next0);
      ListTextOfCons(n, Numbered(Cut(rest), next).0);
      out := PrintLine(f, n);
      Assoc3(f, LineText(n), [], ListText(Numbered(Cut(rest), next).0));
      assert out + [] == out;
    }
  }

  /** The numbers change no name. */
  lemma {:induction false} NumberedNamed(ns: seq<Node>, next: nat)
    requires Shaped(ns) && next < U64
    ensures Named(Numbered(ns, next).0) <==> Named(ns)
    decreases ns
  {
    hide *;
    if ns != [] {
      ShapedParts(ns);
      NamedParts(ns);
      var r := Numbered(ns, next).0;
      ShapedParts(r);
      if ns[0].body.Directory? {
        NumberedDirectory(ns, next);
        var c := Numbered(ns[0].body.children, next);
        NumberedNamed(ns[0].body.children, next);
        NumberedNamed(ns[1..], c.1);
        assert r[1..] == Numbered(ns[1..], c.1).0;
        SameNames(ns[0], r[0]);
      } else {
        NumberedFile(ns, next);
        var m := NextNumber(ns[0], next);
        NumberedNamed(ns[1..], m);
        assert r[1..] == Numbered(ns[1..], m).0;
        NumberedName(ns[0], next);
        SameNames(ns[0], r[0]);
      }
      NamedParts(r);
    } else {
      assert Numbered(ns, next).0 == [];
    }
  }

  lemma NumberedName(n: Node, next: nat)
    ensures NumberedOne(n, next).name == n.name
    ensures (n.body.Regular? && NumberedOne(n, next).body.Regular?) || NumberedOne(n, next).body == n.body
  {
  }

  lemma SameNames(n: Node, m: Node)
    requires ShapedLine(n) && ShapedLine(m) && n.name == m.name
    requires n.body == m.body || (n.body.Directory? && m.body.Directory?) || (n.body.Regular? && m.body.Regular?)
    ensures NamedLine(n) <==> NamedLine(m)
  {
  }

  // ----- when the tree does not come back

  lemma LinkKeeps(t: Text, p: nat, n: Node)
    requires p <= |t|
    ensures LinkAt(t, p, n).Done? ==> LinkAt(t, p, n).value.name == n.name && LinkAt(t, p, n).value.typ == n.typ
  {
    hide NameAt, NumberAt, SkipLine;
  }

  /** A bad link target is not read back. */
  lemma LinkLost(t: Text, p: nat, n: Node, m: Node)
    requires ShapedLine(n) && n.body.Symlink? && !GoodName(n.body.target) && At(t, p, LinkText(n.body)) && m.typ == LNK
    ensures p <= |t| && (LinkAt(t, p, m).Done? ==> LinkAt(t, p, m).value.body != n.body)
  {
    NameBackIff(t, p, n.body.target, NEWLINE);
    hide NameAt, Printed, SkipLine, GoodName;
    AtLength(t, p, LinkText(n.body));
  }

  /** After a bad name or link target the entry that is read is another one. */
  lemma TimeAndNameLost(t: Text, p: nat, n: Node, m: Node)
    requires ShapedLine(n) && !NamedLine(n) && At(t, p, TimeAndName(n)) && m.typ == n.typ
    ensures p <= |t| && (TimeAndNameAt(t, p, m).Done? ==> Differs(TimeAndNameAt(t, p, m).value, n))
  {
    hide TimeText, NameAt, TimeAt, LinkAt, LinkText, Printed, At, GoodName;
    var x := TimeText(n.time.sec, n.time.nsec);
    Field(t, p, [SPACE] + x, NameText(n));
    TimeBack(t, p, n.time.sec, n.time.nsec);
    var q := p + 1 + |x|;
    LinkBegins(n.body);
    var tail := LinkText(n.body);
    Field(t, q, [SPACE] + Printed(n.name), tail);
    NameBackIff(t, q, n.name, tail[0]);
    if NameAt(t, q).Done? {
      var k := m.(time := n.time, name := NameAt(t, q).value);
      LinkKeeps(t, NameAt(t, q).next, k);
      if GoodName(n.name) {
        LinkLost(t, NameAt(t, q).next, n, k);
      }
    }
  }

  /** Read entries that are not this one. */
  predicate Differs(m: Node, n: Node) {
    m.typ == n.typ && (m.name != n.name || (n.body.Symlink? && m.body != n.body))
  }

  lemma BodyLost(t: Text, p: nat, n: Node, m: Node)
    requires ShapedLine(n) && !NamedLine(n) && At(t, p, BodyText(n)) && m.typ == n.typ
    ensures p <= |t| && (BodyAt(t, p, m).Done? ==> Differs(BodyAt(t, p, m).value, n))
  {
    hide TimeAndName, TimeAndNameAt, NumberAt, Digits, NamedLine, Differs, CString;
    var tail := TimeAndName(n);
    TimeBegins(n);
    match n.body
    case Device(major, minor) =>
      NumberField(t, p, major, 10, U32, [SPACE] + Digits(minor, 10) + tail);
      var q := p + 1 + |Digits(major, 10)|;
      NumberField(t, q, minor, 10, U32, tail);
      TimeAndNameLost(t, q + 1 + |Digits(minor, 10)|, n, m.(body := n.body));
    case Regular(size, id) =>
      NumberField(t, p, size, 10, U64, tail);
      TimeAndNameLost(t, p + 1 + |Digits(size, 10)|, n, m.(body := Regular(size, 0)));
    case Directory(_) => TimeAndNameLost(t, p, n, m.(body := Directory([])));
    case _ => TimeAndNameLost(t, p, n, m.(body := Other));
  }

  lemma LineLost(t: Text, p: nat, n: Node)
    requires ShapedLine(n) && !NamedLine(n) && At(t, p, LineText(n))
    ensures p <= |t| && (LineAt(t, p).Done? ==> Differs(LineAt(t, p).value, n))
  {
    var body := BodyText(n);
    var b := LineFields(t, p, n);
    hide BodyText, BodyAt, NumberAt, Digits, NamedLine, CString, Padded, Differs, LineText;
    BodyLost(t, b, n, Node(n.typ, n.mode, n.uid, n.gid, Time(0, 0), [], Other));
  }

  /** An entry that is not the first one read means another list. */
  lemma EntryLost(t: Text, p: nat, n: Node)
    requires p <= |t| && ShapedLine(n) && (LineAt(t, p).Done? ==> Differs(LineAt(t, p).value, n))
    requires Char(t, p) != 0 && Char(t, p) != COMMENT && Char(t, p) != DOT
    ensures ListAt(t, p).Done? ==> ListAt(t, p).value != [] && ListAt(t, p).value[0] != n
  {
    hide LineAt, SkipLine, CString;
  }

  /** What is read as the printed tree has only names that survive. */
  lemma {:induction false} ListLost(t: Text, p: nat, ns: seq<Node>)
    requires Shaped(ns) && At(t, p, ListText(ns)) && p <= |t|
    requires ListAt(t, p).Done? && ListAt(t, p).value == ns
    ensures Named(ns)
    decreases ns
  {
    hide *;
    ListTextIs(ns);
    if ns == [] {
      NamedNothing(ns);
    } else {
      var n, rest := ns[0], ns[1..];
      var inner := if n.body.Directory? then ListText(n.body.children) else [];
      AtSplit(t, p, LineText(n), inner + ListText(rest));
      var q := p + |LineText(n)|;
      AtSplit(t, q, inner, ListText(rest));
      LineBegins(t, p, n);
      NamedParts(ns);
      if !NamedLine(n) {
        LineLost(t, p, n);
        EntryLost(t, p, n);
      } else {
        NamedLineIsGood(n);
        LineBack(t, p, n);
        AtLength(t, q, inner);
        if n.body.Directory? {
          InnerRead(t, p, n, q, rest);
          ListLost(t, q, n.body.children);
          ListBack(t, q, n.body.children);
        }
        ListAtEntry(t, p, n, q, q + |inner|);
        ConsParts(n, ListAt(t, q + |inner|), ns);
        ListLost(t, q + |inner|, rest);
      }
    }
  }

  lemma NamedNothing(ns: seq<Node>)
    requires ns == []
    ensures Shaped(ns) && Named(ns)
  {
  }

  lemma ConsParts(n: Node, r: Parsed<seq<Node>>, ns: seq<Node>)
    requires Cons(n, r).Done? && Cons(n, r).value == ns
    ensures ns != [] && r.Done? && r.value == ns[1..]
  {
    assert ([n] + r.value)[1..] == r.value;
  }

  /** The directory that is read first is the first one. */
  lemma InnerRead(t: Text, p: nat, n: Node, q: nat, rest: seq<Node>)
    requires p <= |t| && q <= |t| && GoodLine(n) && n.body.Directory? && LineAt(t, p) == Done(Bare(n), q)
    requires Char(t, p) != 0 && Char(t, p) != COMMENT && Char(t, p) != DOT
    requires ListAt(t, p).Done? && ListAt(t, p).value != [] && ListAt(t, p).value[0] == n
    ensures ListAt(t, q).Done? && ListAt(t, q).value == n.body.children
  {
    hide LineAt, SkipLine, NamedLine, CString;
  }

  // ----- link targets that are cut

  lemma CutSame(n: Node)
    ensures CutLink(n) == n <==> (n.body.Symlink? ==> |n.body.target| <= LINK_MAX)
  {
  }

  lemma CutSameList(ns: seq<Node>)
    requires ns != []
    ensures Cut(ns) == ns <==>
              && Cut(ns[1..]) == ns[1..]
              && if ns[0].body.Directory? then Cut(ns[0].body.children) == ns[0].body.children
                 else CutLink(ns[0]) == ns[0]
  {
    hide *;
    CutParts(ns);
    var c, d := Cut(ns), ns[0];
    if c == ns { assert c[1..] == ns[1..] && c[0] == d; }
    if d.body.Directory? { SameBody(d, Cut(d.body.children)); }
  }

  lemma SameBody(n: Node, children: seq<Node>)
    requires n.body.Directory?
    ensures n.(body := Directory(children)) == n <==> children == n.body.children
  {
  }

  /** Links that survive are not cut. */
  lemma {:induction false} NamedIsUncut(ns: seq<Node>)
    requires Shaped(ns) && Named(ns)
    ensures Cut(ns) == ns
    decreases ns
  {
    hide *;
    if ns != [] {
      ShapedParts(ns);
      NamedParts(ns);
      CutSameList(ns);
      NamedIsUncut(ns[1..]);
      if ns[0].body.Directory? {
        NamedIsUncut(ns[0].body.children);
      } else {
        CutSame(ns[0]);
        GoodTarget(ns[0]);
      }
    } else {
      assert Cut(ns) == [];
    }
  }

  lemma GoodTarget(n: Node)
    requires ShapedLine(n) && NamedLine(n)
    ensures n.body.Symlink? ==> |n.body.target| <= LINK_MAX
  {
  }

  lemma {:induction false} NumberedCut(ns: seq<Node>, next: nat)
    requires Shaped(ns) && next < U64 && Cut(Numbered(ns, next).0) == Numbered(ns, next).0
    ensures Cut(ns) == ns
    decreases ns
  {
    hide *;
    if ns != [] {
      ShapedParts(ns);
      CutSameList(ns);
      var r := Numbered(ns, next).0;
      CutSameList(r);
      if ns[0].body.Directory? {
        NumberedDirectory(ns, next);
        var c := Numbered(ns[0].body.children, next);
        assert r[1..] == Numbered(ns[1..], c.1).0;
        NumberedCut(ns[0].body.children, next);
        NumberedCut(ns[1..], c.1);
      } else {
        NumberedFile(ns, next);
        var m := NextNumber(ns[0], next);
        assert r[1..] == Numbered(ns[1..], m).0;
        NumberedCut(ns[1..], m);
        NumberedName(ns[0], next);
        CutSame(ns[0]);
        CutSame(r[0]);
      }
    } else {
      assert Cut(ns) == [];
    }
  }

  predicate Uncut(n: Node) { CutLink(n) == n && (n.body.Directory? ==> n.typ == DIR) }

  lemma LinkIsShort(t: Text, p: nat, n: Node)
    requires p <= |t| && !n.body.Symlink? && (n.body.Directory? ==> n.typ == DIR)
    ensures LinkAt(t, p, n).Done? ==> Uncut(LinkAt(t, p, n).value)
  {
    hide NameAt, NumberAt, SkipLine;
  }

  lemma LineIsShort(t: Text, p: nat)
    requires p <= |t|
    ensures LineAt(t, p).Done? ==> Uncut(LineAt(t, p).value)
  {
    hide NameAt, NumberAt, TimeAt, LinkAt, Uncut;
    forall q: nat, n: Node | q <= |t| && !n.body.Symlink? && (n.body.Directory? ==> n.typ == DIR)
      ensures LinkAt(t, q, n).Done? ==> Uncut(LinkAt(t, q, n).value)
    {
      LinkIsShort(t, q, n);
    }
  }

  /** A list that was read has no link target that would be cut. */
  lemma {:induction false} ReadIsUncut(t: Text, p: nat)
    requires p <= |t|
    ensures ListAt(t, p).Done? ==> Cut(ListAt(t, p).value) == ListAt(t, p).value
    decreases |t| - p
  {
    hide LineAt, SkipLine, CutLink, Cut;
    if Char(t, p) == 0 || Char(t, p) == DOT {
      CutNothing();
    } else if Char(t, p) == COMMENT {
      ReadIsUncut(t, SkipLine(t, p));
    } else if LineAt(t, p).Done? {
      LineIsShort(t, p);
      var (n, q) := (LineAt(t, p).value, LineAt(t, p).next);
      ReadIsUncut(t, q);
      if n.typ == DIR {
        var inner := ListAt(t, q);
        if inner.Done? {
          ReadIsUncut(t, inner.next);
          ConsUncut(n.(body := Directory(inner.value)), ListAt(t, inner.next));
        }
      } else {
        ConsUncut(n, ListAt(t, q));
      }
    }
  }

  lemma CutNothing()
    ensures Cut([]) == []
  {
  }

  lemma ConsUncut(n: Node, r: Parsed<seq<Node>>)
    requires if n.body.Directory? then Cut(n.body.children) == n.body.children else CutLink(n) == n
    requires r.Done? ==> Cut(r.value) == r.value
    ensures Cons(n, r).Done? ==> Cut(Cons(n, r).value) == Cons(n, r).value
  {
    hide Cut, CutLink;
    if r.Done? {
      var ns := [n] + r.value;
      assert ns[1..] == r.value;
      CutSameList(ns);
    }
  }

  /** Wherever the printed tree stands in a text, the tree is read back from there, with the numbers its files were
      given, exactly if all its names and link targets survive. */
  lemma TreeSurvives(ns: seq<Node>, next: nat, before: Text, after: Text)
    requires Shaped(ns) && next < U64
    ensures var sent, tree := ListText(Numbered(Cut(ns), next).0), Numbered(ns, next).0;
            var r := ListAt(before + sent + after, |before|);
            && (Named(ns) <==> r.Done? && r.value == tree)
            && (Named(ns) ==> r.next == |before| + |sent|)
  {
    hide ShapedLine, LineText, Numbered, ListAt, Named, Cut;
    var tree := Numbered(ns, next).0;
    var x := ListText(Numbered(Cut(ns), next).0);
    var t := before + x + after;
    NumberedNamed(ns, next);
    assert At(t, |before|, x);
    if Named(ns) {
      NamedIsUncut(ns);
      ListBack(t, |before|, tree);
    }
    if ListAt(t, |before|).Done? && ListAt(t, |before|).value == tree {
      ReadIsUncut(t, |before|);
      NumberedCut(ns, next);
      ListLost(t, |before|, tree);
    }
  }
}
