/**
 * Which texts are addresses, and of which address, without reference to how
 * they are scanned: groups of hex digits and a dotted ending between colons,
 * with at most one "::" for the missing bytes.
 */
module IpGrammar {
  import opened Bytes
  import opened Ints
  import opened IpAddr
  import opened IpDotted
  import opened IpFormat
  import opened IpParse
  import opened Options
  import opened Seqs

  // ---------------------------------------------------------------- digits

  function LowerChar(c: char): char {
    if 'A' <= c <= 'Z' then c - 'A' + 'a' else c
  }

  function Lower(s: string): (r: string)
    ensures |r| == |s| && forall i :: 0 <= i < |s| ==> r[i] == LowerChar(s[i])
  {
    seq(|s|, i requires 0 <= i < |s| => LowerChar(s[i]))
  }

  /** One of the sixteen digits, in lower or upper case. */
  ghost predicate IsHexDigit(c: char) {
    exists v: nat :: v < 16 && Digit(v) == LowerChar(c)
  }

  /** Its place among the sixteen. */
  ghost function DigitValue(c: char): (v: nat)
    requires IsHexDigit(c)
    ensures v < 16 && Digit(v) == LowerChar(c)
  {
    var v: nat :| v < 16 && Digit(v) == LowerChar(c);
    v
  }

  lemma DigitsDiffer(v: nat, w: nat)
    requires v < 16 && w < 16 && Digit(v) == Digit(w)
    ensures v == w
  {}

  /** The scanner's arithmetic on characters gives the value of the digit. */
  lemma HexAgrees(c: char)
    ensures IsHex(c) <==> IsHexDigit(c)
    ensures IsHex(c) ==> HexValue(c) == DigitValue(c)
  {
    if IsHex(c) {
      var v := HexValue(c);
      assert Digit(v) == LowerChar(c);
      DigitsDiffer(v, DigitValue(c));
    }
  }

  ghost predicate AllHex(g: string) {
    forall i :: 0 <= i < |g| ==> IsHexDigit(g[i])
  }

  /** The number a row of hex digits stands for. */
  ghost function HexNumber(g: string): nat
    requires AllHex(g)
  {
    if g == "" then 0 else HexNumber(g[..|g| - 1]) * 16 + DigitValue(g[|g| - 1])
  }

  /** One to four hex digits. */
  ghost predicate IsGroup(g: string) {
    1 <= |g| <= 4 && AllHex(g)
  }

  ghost function Limit(n: nat): nat {
    if n == 0 then 1 else 16 * Limit(n - 1)
  }

  lemma Limits()
    ensures Limit(1) == 0x10 && Limit(2) == 0x100 && Limit(3) == 0x1000 && Limit(4) == 0x1_0000
  {}

  lemma ScanStep(s: string, n: nat, acc: nat)
    requires n < |s| && n <= 3 && acc * 16 + 15 <= 0xffff && IsHexDigit(s[n])
    ensures ScanFrom(s, n, acc) == ScanFrom(s, n + 1, acc * 16 + DigitValue(s[n]))
  {
    hide DigitValue, IsHexDigit, IsHex, HexValue;
    HexAgrees(s[n]);
  }

  /** Scanning has read the number that the digits so far stand for. */
  lemma {:induction false} ScanTo(s: string, n: nat)
    requires n <= |s| && n <= 4 && AllHex(s[..n])
    ensures HexNumber(s[..n]) < Limit(n) <= 0x1_0000
    ensures ScanFrom(s, 0, 0) == ScanFrom(s, n, HexNumber(s[..n]))
    decreases n
  {
    hide DigitValue, IsHexDigit, ScanFrom;
    Limits();
    if n == 0 {
      assert s[..0] == "";
    } else {
      assert s[..n][..n - 1] == s[..n - 1] && s[..n][n - 1] == s[n - 1];
      ScanTo(s, n - 1);
      ScanStep(s, n - 1, HexNumber(s[..n - 1]));
    }
  }

  lemma GroupBelow(g: string)
    requires IsGroup(g)
    ensures HexNumber(g) < 0x1_0000
  {
    assert g[..|g|] == g;
    ScanTo(g, |g|);
  }

  /** A group in front of anything else is scanned whole. */
  lemma ScanGroupText(s: string, n: nat)
    requires n <= |s| && IsGroup(s[..n]) && (n == |s| || !IsHex(s[n]))
    ensures HexNumber(s[..n]) < 0x1_0000
    ensures ScanFrom(s, 0, 0) == Ok(Group(n, HexNumber(s[..n])))
  {
    hide IsHex;
    ScanTo(s, n);
  }

  /** Whatever is scanned is a row of at most four digits, taken to its end, with its number. */
  lemma ScanShape(s: string)
    requires ScanFrom(s, 0, 0).Ok?
    ensures var n := ScanFrom(s, 0, 0).value.off;
      && n <= 4 && AllHex(s[..n]) && ScanFrom(s, 0, 0).value.acc == HexNumber(s[..n])
      && (n == |s| || !IsHex(s[n]))
  {
    assert s[..0] == "";
    ScanOn(s, 0);
  }

  lemma {:induction false} ScanOn(s: string, n: nat)
    requires n <= |s| && n <= 4 && AllHex(s[..n]) && ScanFrom(s, 0, 0).Ok?
    ensures var m := ScanFrom(s, 0, 0).value.off;
      && m <= 4 && AllHex(s[..m]) && ScanFrom(s, 0, 0).value.acc == HexNumber(s[..m]) && (m == |s| || !IsHex(s[m]))
    decreases |s| - n
  {
    hide DigitValue, IsHexDigit, IsHex, HexValue, HexNumber;
    ScanTo(s, n);
    if n < |s| && IsHex(s[n]) {
      HexAgrees(s[n]);
      assert forall i :: 0 <= i < n ==> s[..n + 1][i] == s[..n][i];
      ScanOn(s, n + 1);
    }
  }

  /** Leading zeros do not count. */
  lemma {:induction false} LeadingZero(g: string)
    requires AllHex(g)
    ensures AllHex("0" + g) && HexNumber("0" + g) == HexNumber(g)
  {
    hide IsHexDigit, DigitValue;
    ZeroDigit();
    if g == "" {
      assert "0" + g == "0" && "0"[..0] == "";
    } else {
      assert ("0" + g)[..|g|] == "0" + g[..|g| - 1];
      LeadingZero(g[..|g| - 1]);
    }
  }

  lemma ZeroDigit()
    ensures IsHexDigit('0') && DigitValue('0') == 0
  {
    assert Digit(0) == '0';
    DigitsDiffer(0, DigitValue('0'));
  }

  // ---------------------------------------------------------------- the grammar

  /** What may stand between colons: a group, or, at the very end, a dotted address. */
  datatype Piece = Hex(text: string) | Quad(a: byte, b: byte, c: byte, d: byte)

  function PieceText(p: Piece): string {
    match p
    case Hex(g) => g
    case Quad(a, b, c, d) => Dotted(a, b, c, d)
  }

  ghost predicate Good(ps: seq<Piece>) {
    ps == [] || (if ps[0].Hex? then IsGroup(ps[0].text) && Good(ps[1..]) else |ps| == 1)
  }

  ghost predicate Groupwise(ps: seq<Piece>) {
    Good(ps) && forall i :: 0 <= i < |ps| ==> ps[i].Hex?
  }

  ghost function PieceBytes(p: Piece): (b: seq<byte>)
    requires p.Hex? ==> IsGroup(p.text)
    ensures |b| == if p.Hex? then 2 else 4
  {
    match p
    case Hex(g) => GroupBelow(g); [HexNumber(g) / 256, HexNumber(g) % 256]
    case Quad(a, b, c, d) => [a, b, c, d]
  }

  ghost function BytesIn(ps: seq<Piece>): (b: seq<byte>)
    requires Good(ps)
    ensures |b| % 2 == 0
  {
    if ps == [] then [] else PieceBytes(ps[0]) + if ps[0].Hex? then BytesIn(ps[1..]) else []
  }

  function Join(ps: seq<Piece>): string {
    if ps == [] then "" else if |ps| == 1 then PieceText(ps[0]) else PieceText(ps[0]) + (":" + Join(ps[1..]))
  }

  /** An address written out, or with "::" for the missing bytes, of which there are some. */
  datatype Shape = Full(ps: seq<Piece>) | Short(before: seq<Piece>, after: seq<Piece>)

  ghost predicate WellFormed(sh: Shape) {
    match sh
    case Full(ps) => Good(ps) && |BytesIn(ps)| == 16
    case Short(x, y) => Groupwise(x) && Good(y) && |BytesIn(x)| + |BytesIn(y)| < 16
  }

  function Spelled(sh: Shape): string {
    match sh
    case Full(ps) => Join(ps)
    case Short(x, y) => Join(x) + ("::" + Join(y))
  }

  ghost function Value(sh: Shape): (b: seq<byte>)
    requires WellFormed(sh)
    ensures |b| == 16
  {
    match sh
    case Full(ps) => BytesIn(ps)
    case Short(x, y) => BytesIn(x) + Zeros(16 - |BytesIn(x)| - |BytesIn(y)|) + BytesIn(y)
  }

  // ---------------------------------------------------------------- every such text is read, with its value

  lemma ColonEnds(rest: string)
    requires rest == "" || rest[0] == ':' || rest[0] == '.'
    ensures rest == "" || !IsHex(rest[0])
  {}

  /** A group followed by nothing or by a colon. */
  lemma GroupRead(s: string, p: Piece, rest: string, b: seq<byte>, ell: int)
    requires p.Hex? && IsGroup(p.text) && s == p.text + rest && (rest == "" || rest[0] == ':')
    requires |b| % 2 == 0 && |b| < 16 && -1 <= ell <= |b|
    ensures Groups(s, b, ell) == AfterGroup(rest, b + PieceBytes(p), ell)
  {
    hide AfterGroup, ScanFrom, HexNumber, AllHex;
    var g := p.text;
    assert s[..|g|] == g && s[|g|..] == rest;
    ColonEnds(rest);
    ScanGroupText(s, |g|);
  }

  /** A dotted ending is seen as such: its first octet is at most three digits and then a dot. */
  lemma QuadRead(q: Piece, b: seq<byte>, ell: int)
    requires q.Quad? && |b| % 2 == 0 && |b| + 4 <= 16 && -1 <= ell <= |b| && (ell >= 0 || |b| == 12)
    ensures Groups(PieceText(q), b, ell) == Ok(Parsed(b + PieceBytes(q), ell, ""))
  {
    hide Numeral, Dotted, Fields4, ScanFrom, IsHex;
    var t, u := PieceText(q), Numeral(q.a, 10);
    DottedRead(q.a, q.b, q.c, q.d);
    DottedParts(q.a, q.b, q.c, q.d);
    DecimalGroup(q.a);
    assert t[..|u|] == u && t[|u|] == '.';
    ColonEnds(".");
    ScanGroupText(t, |u|);
  }

  lemma DecimalGroup(n: byte)
    ensures IsGroup(Numeral(n, 10))
  {
    hide IsHex, IsHexDigit, Digit, IsDecimal;
    NumeralDigits(n, 10);
    var t := Numeral(n, 10);
    Decimal3(n);
    forall i | 0 <= i < |t|
      ensures IsHexDigit(t[i])
    {
      HexAgrees(t[i]);
    }
  }

  lemma TextStart(p: Piece)
    requires p.Hex? ==> IsGroup(p.text)
    ensures PieceText(p) != "" && IsHex(PieceText(p)[0])
  {
    hide Dotted, IsHex, IsHexDigit, Numeral;
    if p.Hex? {
      HexAgrees(p.text[0]);
    } else {
      DottedParts(p.a, p.b, p.c, p.d);
      NumeralDigits(p.a, 10);
    }
  }

  lemma JoinStart(ps: seq<Piece>)
    requires Good(ps) && ps != []
    ensures Join(ps) != "" && IsHex(Join(ps)[0]) && Join(ps)[0] != ':'
  {
    hide IsHex, PieceText;
    TextStart(ps[0]);
    ColonEnds(":");
    assert IsHex(Join(ps)[0]);
    assert ":"[0] == ':';
  }

  lemma JoinMore(ps: seq<Piece>)
    requires |ps| > 1
    ensures Join(ps) == PieceText(ps[0]) + (":" + Join(ps[1..]))
  {}

  lemma BytesMore(ps: seq<Piece>, b: seq<byte>)
    requires Good(ps) && ps != [] && ps[0].Hex?
    ensures b + PieceBytes(ps[0]) + BytesIn(ps[1..]) == b + BytesIn(ps)
    ensures |BytesIn(ps)| == 2 + |BytesIn(ps[1..])|
  {
    Associate(b, PieceBytes(ps[0]), BytesIn(ps[1..]));
  }

  lemma NextGroup(text: string, b: seq<byte>, ell: int)
    requires text != "" && text[0] != ':' && |b| % 2 == 0 && |b| <= 16 && -1 <= ell <= |b|
    ensures AfterGroup(":" + text, b, ell) == Groups(text, b, ell)
  {
    hide Groups;
    assert (":" + text)[1..] == text;
  }

  /** Pieces to the end of the text. */
  lemma {:induction false} PiecesRead(ps: seq<Piece>, b: seq<byte>, ell: int)
    requires Good(ps) && ps != [] && |b| % 2 == 0 && |b| + |BytesIn(ps)| <= 16 && -1 <= ell <= |b|
    requires ell >= 0 || |b| + |BytesIn(ps)| == 16
    ensures Groups(Join(ps), b, ell) == Ok(Parsed(b + BytesIn(ps), ell, ""))
    decreases |ps|
  {
    hide Groups, PieceBytes, Join, PieceText;
    JoinOne(ps);
    if ps[0].Quad? {
      QuadRead(ps[0], b, ell);
      assert PieceBytes(ps[0]) + [] == PieceBytes(ps[0]);
    } else {
      var b', g := b + PieceBytes(ps[0]), ps[0].text;
      BytesMore(ps, b);
      if |ps| == 1 {
        assert g + "" == g;
        GroupRead(Join(ps), ps[0], "", b, ell);
        assert b' + BytesIn(ps[1..]) == b';
      } else {
        JoinMore(ps);
        GroupRead(Join(ps), ps[0], ":" + Join(ps[1..]), b, ell);
        JoinStart(ps[1..]);
        NextGroup(Join(ps[1..]), b', ell);
        PiecesRead(ps[1..], b', ell);
      }
    }
  }

  lemma JoinOne(ps: seq<Piece>)
    ensures |ps| == 1 ==> Join(ps) == PieceText(ps[0])
    ensures ps != [] && ps[0].Hex? ==> PieceText(ps[0]) == ps[0].text
  {}

  /** What is read behind an ellipsis. */
  function AfterEllipsis(tail: string, b: seq<byte>): Answer<Parsed>
    requires |b| % 2 == 0 && |b| <= 16
  {
    if tail == "" then Ok(Parsed(b, |b|, "")) else Groups(tail, b, |b|)
  }

  lemma EllipsisNext(tail: string, b: seq<byte>)
    requires |b| % 2 == 0 && |b| <= 16
    ensures AfterGroup("::" + tail, b, -1) == AfterEllipsis(tail, b)
  {
    hide Groups;
    assert ("::" + tail)[2..] == tail;
  }

  lemma SplitTail(x: string, y: string, z: string)
    ensures x + (":" + y) + z == x + (":" + (y + z))
  {
    Associate(x, ":" + y, z);
    Associate(":", y, z);
  }

  /** Groups up to the ellipsis. */
  lemma {:induction false} PiecesToEllipsis(x: seq<Piece>, tail: string, b: seq<byte>, c: seq<byte>)
    requires |b| % 2 == 0 && |c| % 2 == 0 && |b| <= |c| < 16
    requires Groupwise(x) && x != [] && c == b + BytesIn(x)
    ensures Groups(Join(x) + ("::" + tail), b, -1) == AfterEllipsis(tail, c)
    decreases |x|
  {
    hide Groups, PieceBytes, Join, PieceText, AfterGroup;
    JoinOne(x);
    var b', g := b + PieceBytes(x[0]), x[0].text;
    BytesMore(x, b);
    var s := Join(x) + ("::" + tail);
    if |x| == 1 {
      GroupRead(s, x[0], "::" + tail, b, -1);
      EllipsisNext(tail, b');
      assert b' + BytesIn(x[1..]) == b';
    } else {
      JoinMore(x);
      SplitTail(g, Join(x[1..]), "::" + tail);
      var rest := Join(x[1..]) + ("::" + tail);
      GroupRead(s, x[0], ":" + rest, b, -1);
      JoinStart(x[1..]);
      NextGroup(rest, b', -1);
      PiecesToEllipsis(x[1..], tail, b', c);
    }
  }

  /** What expanding an ellipsis between two stretches of bytes gives. */
  lemma Expanded(x: seq<byte>, y: seq<byte>)
    requires |x| + |y| < 16
    ensures Finish(Parsed(x + y, |x|, "")) == Ok(x + Zeros(16 - |x| - |y|) + y)
  {
    assert (x + y)[..|x|] == x && (x + y)[|x|..] == y;
  }

  lemma JoinNone()
    ensures Good([]) && Join([]) == "" && BytesIn([]) == []
  {}

  lemma NotLeading(s: string, t: string)
    requires s != "" && s[0] != ':' && t == s
    ensures Body(t) == if Groups(s, [], -1).Err? then Err(Groups(s, [], -1).error)
                       else if Finish(Groups(s, [], -1).value).Err? then Err(Finish(Groups(s, [], -1).value).error)
                       else Ok(AddrFrom16(Finish(Groups(s, [], -1).value).value))
  {
    hide Groups, Finish, AddrFrom16;
  }

  lemma Leading(s: string)
    requires s != ""
    ensures Body("::" + s) == if Groups(s, [], 0).Err? then Err(Groups(s, [], 0).error)
                              else if Finish(Groups(s, [], 0).value).Err? then Err(Finish(Groups(s, [], 0).value).error)
                              else Ok(AddrFrom16(Finish(Groups(s, [], 0).value).value))
  {
    hide Groups, Finish, AddrFrom16;
    assert ("::" + s)[2..] == s;
  }

  lemma OnlyEllipsis()
    ensures Body("::") == Ok(AddrFrom16(Zeros(16)))
  {
    var z := Zeros(16);
    assert z[..8] == [0, 0, 0, 0, 0, 0, 0, 0] == z[8..];
  }

  lemma WholeRead(b: seq<byte>)
    requires |b| == 16
    ensures Finish(Parsed(b, -1, "")) == Ok(b)
  {}

  /** Every text of the grammar is read, and gives the address it spells. */
  lemma BodyReads(sh: Shape)
    requires WellFormed(sh)
    ensures Body(Spelled(sh)) == Ok(AddrFrom16(Value(sh)))
  {
    hide Groups, Finish, AddrFrom16, Join, BytesIn, Body, Good;
    JoinNone();
    match sh
    case Full(ps) =>
      JoinStart(ps);
      PiecesRead(ps, [], -1);
      assert [] + BytesIn(ps) == BytesIn(ps);
      WholeRead(BytesIn(ps));
      NotLeading(Join(ps), Spelled(sh));
    case Short(x, y) =>
      ShortReads(x, y);
  }

  lemma ShortReads(x: seq<Piece>, y: seq<Piece>)
    requires WellFormed(Short(x, y))
    ensures Body(Spelled(Short(x, y))) == Ok(AddrFrom16(Value(Short(x, y))))
  {
    hide Groups, Finish, AddrFrom16, Join, BytesIn, Body, Good;
    JoinNone();
    var s := Spelled(Short(x, y));
    assert [] + BytesIn(x) == BytesIn(x);
    Expanded(BytesIn(x), BytesIn(y));
    if y != [] {
      JoinStart(y);
      PiecesRead(y, BytesIn(x), |BytesIn(x)|);
    } else {
      assert BytesIn(x) + [] == BytesIn(x);
    }
    if x != [] {
      JoinStart(x);
      assert s[0] == Join(x)[0];
      PiecesToEllipsis(x, Join(y), [], BytesIn(x));
      NotLeading(s, s);
    } else if y != [] {
      assert s == "::" + Join(y);
      Leading(Join(y));
    } else {
      assert s == "::";
      assert [] + Zeros(16) + [] == Zeros(16);
      OnlyEllipsis();
    }
  }
}
