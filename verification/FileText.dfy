/** Names and numbers in the file list: how build_filelist.c prints them and how fs_utils.c reads them. */
module FileText {
  type Byte = x: int | 0 <= x < 256
  type Text = seq<Byte>

  const SPACE: Byte := 32
  const TAB: Byte := 9
  const NEWLINE: Byte := 10
  const QUOTE: Byte := 34
  const APOSTROPHE: Byte := 39
  const DOT: Byte := 46
  const BACKSLASH: Byte := 92
  const DELETE: Byte := 127
  /** The space for a name, without its end. */
  const NAME_MAX: nat := 1023

  datatype Parsed<T> = Fail | Done(value: T, next: nat)

  /** A character of a text that ends with a null character. */
  function Char(t: Text, p: nat): Byte {
    if p < |t| then t[p] else 0
  }

  predicate IsSpace(c: Byte) { c == SPACE || c == TAB }

  ghost predicate At(t: Text, p: nat, s: Text) {
    p + |s| <= |t| && t[p..p + |s|] == s
  }

  lemma AtSplit(t: Text, p: nat, a: Text, b: Text)
    requires At(t, p, a + b)
    ensures At(t, p, a) && At(t, p + |a|, b)
  {
    assert t[p..p + |a + b|][..|a|] == a && t[p..p + |a + b|][|a|..] == b;
    assert t[p..p + |a|] == t[p..p + |a + b|][..|a|];
    assert t[p + |a|..p + |a| + |b|] == t[p..p + |a + b|][|a|..];
  }

  lemma AtChar(t: Text, p: nat, s: Text, i: nat)
    requires At(t, p, s) && i < |s|
    ensures Char(t, p + i) == s[i]
  {
    assert t[p..p + |s|][i] == t[p + i];
  }

  // ----- printing a name

  predicate Plain(c: Byte) { SPACE < c < DELETE }

  predicate NeedsQuotes(s: Text) {
    exists i :: 0 <= i < |s| && !Plain(s[i])
  }

  function HexDigit(d: nat): Byte
    requires d < 16
  {
    if d < 10 then 48 + d else 87 + d
  }

  function Escaped(c: Byte): (r: Text)
    ensures |r| > 0
  {
    if c < SPACE || c == DELETE then [BACKSLASH, 120, HexDigit(c / 16), HexDigit(c % 16)]
    else if c == BACKSLASH || c == QUOTE then [BACKSLASH, c]
    else [c]
  }

  function EscapedAll(s: Text): Text {
    if s == [] then [] else Escaped(s[0]) + EscapedAll(s[1..])
  }

  /** What print_str writes. */
  function Printed(s: Text): Text {
    if NeedsQuotes(s) then [QUOTE] + EscapedAll(s) + [QUOTE] else s
  }

  lemma EscapedMore(s: Text, i: nat)
    requires i < |s|
    ensures EscapedAll(s[i..]) == Escaped(s[i]) + EscapedAll(s[i + 1..])
  {
    assert s[i..][1..] == s[i + 1..];
  }

  /** print_str */
  method PrintStr(f: Text, str: Text) returns (out: Text)
    ensures out == f + Printed(str)
  {
    var s := 0;
    while s < |str|
      invariant s <= |str| && forall i :: 0 <= i < s ==> Plain(str[i])
    {
      if str[s] <= SPACE || str[s] > 126 {
        break;
      }
      s := s + 1;
    }
    if s == |str| {
      return f + str;
    }
    assert NeedsQuotes(str);
    out := PrintQuoted(f, str);
  }

  method PrintQuoted(f: Text, str: Text) returns (out: Text)
    ensures out == f + ([QUOTE] + EscapedAll(str) + [QUOTE])
  {
    hide Escaped;
    var s := 0;
    ghost var body: Text := [];
    assert str[0..] == str && body + EscapedAll(str) == EscapedAll(str);
    out := f + [QUOTE];
    while s < |str|
      invariant s <= |str| && out == f + [QUOTE] + body && body + EscapedAll(str[s..]) == EscapedAll(str)
    {
      EscapedMore(str, s);
      assert body + (Escaped(str[s]) + EscapedAll(str[s + 1..])) == body + Escaped(str[s]) + EscapedAll(str[s + 1..]);
      out, body := out + Escaped(str[s]), body + Escaped(str[s]);
      s := s + 1;
    }
    assert EscapedAll(str[s..]) == [] && body == EscapedAll(str);
    out := out + [QUOTE];
  }

  // ----- reading a name

  function HexValue(c: Byte): (h: int)
    ensures -1 <= h < 16
  {
    if 48 <= c <= 57 then c - 48 else if 65 <= c <= 70 then c - 55 else if 97 <= c <= 102 then c - 87 else -1
  }

  /** The character after a backslash, and how far it reaches. */
  function Unescape(t: Text, p: nat): (r: Parsed<Byte>)
    ensures r.Done? ==> p < r.next <= |t|
  {
    var c := Char(t, p);
    if c == APOSTROPHE || c == QUOTE || c == BACKSLASH then Done(c, p + 1)
    else if c == 110 then Done(NEWLINE, p + 1)
    else if c == 114 then Done(13, p + 1)
    else if c == 116 then Done(TAB, p + 1)
    else if c == 120 then
      var h, l := HexValue(Char(t, p + 1)), HexValue(Char(t, p + 2));
      if h < 0 || l < 0 then Fail else Done(16 * h + l, p + 3)
    else Fail
  }

  /** The digits and the escapes as C writes them. */
  lemma HexDigitIs(d: nat)
    requires d < 16
    ensures HexDigit(d) == "0123456789abcdef"[d] as int
    ensures HexValue(HexDigit(d)) == d && HexValue("0123456789ABCDEF"[d] as int) == d
  {
  }

  lemma EscapedIs(c: Byte)
    ensures Escaped(c) ==
            if c < ' ' as int || c == 127 then
              ['\\' as int, 'x' as int, "0123456789abcdef"[c / 16] as int, "0123456789abcdef"[c % 16] as int]
            else if c == '"' as int || c == '\\' as int then ['\\' as int, c]
            else [c]
  {
    HexDigitIs(c / 16);
    HexDigitIs(c % 16);
    hide HexDigit, HexValue;
  }

  lemma UnescapeIs(t: Text, p: nat)
    requires p < |t|
    ensures t[p] == '\'' as int || t[p] == '"' as int || t[p] == '\\' as int ==> Unescape(t, p) == Done(t[p], p + 1)
    ensures t[p] == 'n' as int ==> Unescape(t, p) == Done('\n' as int, p + 1)
    ensures t[p] == 'r' as int ==> Unescape(t, p) == Done('\r' as int, p + 1)
    ensures t[p] == 't' as int ==> Unescape(t, p) == Done('\t' as int, p + 1)
    ensures Unescape(t, p).Fail? <==>
            && t[p] as char !in "'\"\\nrt"
            && (t[p] == 'x' as int ==> Char(t, p + 1) as char !in HEX || Char(t, p + 2) as char !in HEX)
  {
    HexValueIs(Char(t, p + 1));
    HexValueIs(Char(t, p + 2));
    hide HexValue;
  }

  const HEX: string := "0123456789abcdefABCDEF"

  lemma HexValueIs(c: Byte)
    ensures c as char in HEX <==> HexValue(c) >= 0
  {
  }

  lemma IsSpaceIs(c: Byte)
    ensures IsSpace(c) <==> c as char == ' ' || c as char == '\t'
  {
  }

  /** One character of a quoted name. */
  function QuotedChar(t: Text, p: nat): (r: Parsed<Byte>)
    ensures r.Done? ==> p < r.next <= |t|
  {
    var c := Char(t, p);
    if c == 0 || c == NEWLINE || c == QUOTE then Fail
    else if c == BACKSLASH then Unescape(t, p + 1)
    else Done(c, p + 1)
  }

  /** Between quotes every character stands for itself but for the two that end the name or begin an escape; a line or a
      text that ends there is refused. */
  lemma QuotedCharIs(t: Text, p: nat)
    requires p < |t|
    ensures t[p] == 0 || t[p] as char in "\n\"" ==> QuotedChar(t, p).Fail?
    ensures t[p] != 0 && t[p] as char !in "\n\"\\" ==> QuotedChar(t, p) == Done(t[p], p + 1)
    ensures t[p] == '\\' as int ==> QuotedChar(t, p) == Unescape(t, p + 1)
  {
    hide Unescape;
  }

  /** The rest of a quoted name of which `room` more characters fit. */
  function QuotedRest(t: Text, p: nat, room: nat): (r: Parsed<Text>)
    ensures r.Done? ==> p < r.next <= |t| && |r.value| <= room
    decreases |t| - p
  {
    if Char(t, p) == QUOTE then Done([], p + 1)
    else
      match QuotedChar(t, p)
      case Fail => Fail
      case Done(c, q) =>
        if room == 0 then Fail
        else
          match QuotedRest(t, q, room - 1)
          case Fail => Fail
          case Done(s, n) => Done([c] + s, n)
  }

  /** A text that C can hold, and not an empty one. */
  predicate CString(s: Text) { s != [] && 0 !in s }

  /** A name that survives: it fits, and does not begin with a quote without being quoted. */
  predicate GoodName(s: Text)
    requires s != []
  {
    |s| <= NAME_MAX && (s[0] != QUOTE || NeedsQuotes(s))
  }

  predicate EndsName(c: Byte) { IsSpace(c) || c == 0 || c == NEWLINE }

  /** A plain name ends at the first blank, at the end of the line and at the end of the text. */
  lemma EndsNameIs(c: Byte)
    ensures EndsName(c) <==> c == 0 || c as char in " \t\n"
  {
  }

  function PlainRest(t: Text, p: nat, room: nat): (r: Parsed<Text>)
    requires p <= |t|
    ensures r.Done? ==> p <= r.next <= |t| && |r.value| <= room
    decreases |t| - p
  {
    if EndsName(Char(t, p)) then Done([], p)
    else if room == 0 then Fail
    else
      match PlainRest(t, p + 1, room - 1)
      case Fail => Fail
      case Done(s, n) => Done([t[p]] + s, n)
  }

  function SkipSpaces(t: Text, p: nat): (q: nat)
    requires p <= |t|
    ensures p <= q <= |t|
    decreases |t| - p
  {
    if IsSpace(Char(t, p)) then SkipSpaces(t, p + 1) else p
  }

  /** What parse_fname reads. */
  function NameAt(t: Text, p: nat): (r: Parsed<Text>)
    requires p <= |t|
    ensures r.Done? ==> p <= r.next <= |t| && |r.value| <= NAME_MAX
  {
    var q := SkipSpaces(t, p);
    if Char(t, q) == 0 then Fail
    else if Char(t, q) == QUOTE then QuotedRest(t, q + 1, NAME_MAX)
    else PlainRest(t, q, NAME_MAX)
  }

  function Prepend(a: Text, r: Parsed<Text>): Parsed<Text> {
    match r
    case Fail => Fail
    case Done(s, n) => Done(a + s, n)
  }

  lemma PrependNone(r: Parsed<Text>)
    ensures Prepend([], r) == r
  {
    if r.Done? { assert [] + r.value == r.value; }
  }

  lemma PrependMore(a: Text, c: Byte, r: Parsed<Text>)
    ensures Prepend(a, Prepend([c], r)) == Prepend(a + [c], r)
  {
    if r.Done? { assert a + ([c] + r.value) == a + [c] + r.value; }
  }

  /** parse_fname */
  method ParseFname(t: Text, p0: nat) returns (r: Parsed<Text>)
    requires p0 <= |t|
    ensures r == NameAt(t, p0)
  {
    var p: nat := p0;
    while IsSpace(Char(t, p))
      invariant p0 <= p <= |t| && SkipSpaces(t, p) == SkipSpaces(t, p0)
      decreases |t| - p
    {
      p := p + 1;
    }
    if Char(t, p) == 0 {
      return Fail;
    }
    if Char(t, p) == QUOTE {
      r := ParseQuoted(t, p + 1);
    } else {
      r := ParsePlain(t, p);
    }
  }

  method ParseQuoted(t: Text, p0: nat) returns (r: Parsed<Text>)
    ensures r == QuotedRest(t, p0, NAME_MAX)
  {
    hide QuotedChar;
    var p, buf: Text := p0, [];
    PrependNone(QuotedRest(t, p, NAME_MAX));
    while Char(t, p) != QUOTE
      invariant |buf| <= NAME_MAX && QuotedRest(t, p0, NAME_MAX) == Prepend(buf, QuotedRest(t, p, NAME_MAX - |buf|))
      decreases |t| - p
    {
      var c := QuotedChar(t, p);
      if c.Fail? || |buf| >= NAME_MAX {
        return Fail;
      }
      QuotedStep(t, p, NAME_MAX - |buf|);
      PrependMore(buf, c.value, QuotedRest(t, c.next, NAME_MAX - |buf| - 1));
      p, buf := c.next, buf + [c.value];
    }
    assert buf + [] == buf;
    r := Done(buf, p + 1);
  }

  lemma QuotedStep(t: Text, p: nat, room: nat)
    requires Char(t, p) != QUOTE && QuotedChar(t, p).Done? && room > 0
    ensures QuotedRest(t, p, room) == Prepend([QuotedChar(t, p).value], QuotedRest(t, QuotedChar(t, p).next, room - 1))
  {
    hide QuotedChar;
  }

  method ParsePlain(t: Text, p0: nat) returns (r: Parsed<Text>)
    requires p0 <= |t|
    ensures r == PlainRest(t, p0, NAME_MAX)
  {
    var p, buf: Text := p0, [];
    PrependNone(PlainRest(t, p, NAME_MAX));
    while !EndsName(Char(t, p))
      invariant p <= |t| && |buf| <= NAME_MAX &&
                PlainRest(t, p0, NAME_MAX) == Prepend(buf, PlainRest(t, p, NAME_MAX - |buf|))
      decreases |t| - p
    {
      if |buf| >= NAME_MAX {
        return Fail;
      }
      PlainStep(t, p, NAME_MAX - |buf|);
      PrependMore(buf, t[p], PlainRest(t, p + 1, NAME_MAX - |buf| - 1));
      p, buf := p + 1, buf + [t[p]];
    }
    assert buf + [] == buf;
    r := Done(buf, p);
  }

  lemma PlainStep(t: Text, p: nat, room: nat)
    requires p <= |t| && !EndsName(Char(t, p)) && room > 0
    ensures p < |t| && PlainRest(t, p, room) == Prepend([t[p]], PlainRest(t, p + 1, room - 1))
  {
  }

  // ----- what is printed is read back

  lemma HexBack(c: Byte)
    ensures HexValue(HexDigit(c / 16)) == c / 16 && HexValue(HexDigit(c % 16)) == c % 16
  {
  }

  lemma EscapedBack(t: Text, p: nat, c: Byte)
    requires At(t, p, Escaped(c))
    ensures Char(t, p) != QUOTE && QuotedChar(t, p) == Done(c, p + |Escaped(c)|)
  {
    HexBack(c);
    AtChar(t, p, Escaped(c), 0);
    if |Escaped(c)| > 1 { AtChar(t, p, Escaped(c), 1); }
    if |Escaped(c)| > 2 {
      AtChar(t, p, Escaped(c), 2);
      AtChar(t, p, Escaped(c), 3);
    }
    hide At;
  }

  lemma {:induction false} QuotedBack(t: Text, p: nat, s: Text, room: nat)
    requires At(t, p, EscapedAll(s) + [QUOTE]) && |s| <= room
    ensures QuotedRest(t, p, room) == Done(s, p + |EscapedAll(s)| + 1)
    decreases |s|
  {
    hide At, Escaped, QuotedChar;
    if s == [] {
      AtChar(t, p, EscapedAll(s) + [QUOTE], 0);
    } else {
      var first, rest := Escaped(s[0]), EscapedAll(s[1..]) + [QUOTE];
      assert EscapedAll(s) + [QUOTE] == first + rest;
      AtSplit(t, p, first, rest);
      EscapedBack(t, p, s[0]);
      QuotedBack(t, p + |first|, s[1..], room - 1);
      assert [s[0]] + s[1..] == s;
    }
  }

  lemma {:induction false} PlainBack(t: Text, p: nat, s: Text, room: nat)
    requires At(t, p, s) && (forall i :: 0 <= i < |s| ==> Plain(s[i])) && EndsName(Char(t, p + |s|)) && |s| <= room
    ensures PlainRest(t, p, room) == Done(s, p + |s|)
    decreases |s|
  {
    if s != [] {
      AtChar(t, p, s, 0);
      assert s == [s[0]] + s[1..];
      AtSplit(t, p, [s[0]], s[1..]);
      hide At;
      PlainBack(t, p + 1, s[1..], room - 1);
    }
  }

  /** A quote in front of a name that is not quoted: the name that is read is shorter, or has a space in it. */
  lemma {:induction false} QuoteInFront(t: Text, p: nat, e: nat, room: nat)
    requires p <= e && (forall i :: p <= i < e ==> Plain(Char(t, i))) && (Char(t, e) == SPACE || Char(t, e) == NEWLINE)
    ensures var r := QuotedRest(t, p, room); r.Done? ==> |r.value| < e - p || SPACE in r.value
    decreases e - p
  {
    var c := QuotedChar(t, p);
    if p < e {
      PlainChar(t, p, e);
      hide QuotedChar, Plain;
      if c.Done? && room > 0 && Char(t, p) != QUOTE {
        QuoteInFront(t, c.next, e, room - 1);
      }
    } else {
      hide Plain;
    }
  }

  lemma PlainChar(t: Text, p: nat, e: nat)
    requires p < e && (forall i :: p <= i < e ==> Plain(Char(t, i))) && (Char(t, e) == SPACE || Char(t, e) == NEWLINE)
    ensures QuotedChar(t, p).Done? ==> QuotedChar(t, p).next <= e
  {
  }

  /** A name is read back as it was printed, exactly if it fits and does not begin with a quote without being quoted. */
  lemma NameBackIff(t: Text, p: nat, s: Text, d: Byte)
    requires CString(s) && (d == SPACE || d == NEWLINE) && At(t, p, [SPACE] + Printed(s) + [d])
    ensures GoodName(s) ==> p <= |t| && NameAt(t, p) == Done(s, p + 1 + |Printed(s)|)
    ensures p <= |t| && NameAt(t, p).Done? && NameAt(t, p).value == s ==> GoodName(s)
  {
    var x := Printed(s);
    assert [SPACE] + x + [d] == [SPACE] + (x + [d]);
    AtSplit(t, p, [SPACE], x + [d]);
    AtSplit(t, p + 1, x, [d]);
    AtChar(t, p, [SPACE], 0);
    AtChar(t, p + 1, x, 0);
    AtChar(t, p + 1 + |x|, [d], 0);
    if NeedsQuotes(s) {
      QuotedName(t, p, s);
    } else {
      PlainName(t, p, s, d);
    }
  }

  /** A name of one quote: it is printed as it is, and nothing can be read from it. */
  lemma QuoteAlone()
    ensures Printed([QUOTE]) == [QUOTE] && !GoodName([QUOTE])
    ensures NameAt([SPACE, QUOTE, NEWLINE], 0) == Fail
  {
    var t := [SPACE, QUOTE, NEWLINE];
    assert Plain(QUOTE);
    assert SkipSpaces(t, 1) == 1;
  }

  lemma QuotedName(t: Text, p: nat, s: Text)
    requires NeedsQuotes(s) && p < |t| && Char(t, p) == SPACE && At(t, p + 1, Printed(s))
    ensures |s| <= NAME_MAX ==> NameAt(t, p) == Done(s, p + 1 + |Printed(s)|)
  {
    hide EscapedAll, NeedsQuotes, QuotedRest;
    var rest := EscapedAll(s) + [QUOTE];
    assert Printed(s) == [QUOTE] + rest;
    AtSplit(t, p + 1, [QUOTE], rest);
    AtChar(t, p + 1, [QUOTE], 0);
    hide At, Printed;
    assert SkipSpaces(t, p) == p + 1;
    if |s| <= NAME_MAX {
      QuotedBack(t, p + 2, s, NAME_MAX);
    }
  }

  lemma PlainName(t: Text, p: nat, s: Text, d: Byte)
    requires s != [] && !NeedsQuotes(s) && (d == SPACE || d == NEWLINE)
    requires p < |t| && Char(t, p) == SPACE && At(t, p + 1, s) && Char(t, p + 1 + |s|) == d
    ensures |s| <= NAME_MAX && s[0] != QUOTE ==> NameAt(t, p) == Done(s, p + 1 + |s|)
    ensures s[0] == QUOTE && NameAt(t, p).Done? ==> NameAt(t, p).value != s
  {
    AtChar(t, p + 1, s, 0);
    assert SkipSpaces(t, p) == p + 1;
    if s[0] == QUOTE {
      forall i | p + 2 <= i < p + 1 + |s| ensures Plain(Char(t, i)) { AtChar(t, p + 1, s, i - p - 1); }
      QuoteInFront(t, p + 2, p + 1 + |s|, NAME_MAX);
    } else if |s| <= NAME_MAX {
      PlainBack(t, p + 1, s, NAME_MAX);
    }
  }
}
