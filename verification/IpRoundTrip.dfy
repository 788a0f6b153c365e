/** Parsing undoes printing, for every address. */
module IpRoundTrip {
  import opened Bytes
  import opened Ints
  import opened IpAddr
  import opened IpExactly
  import opened IpFormat
  import opened IpGrammar
  import opened IpParse
  import opened Options
  import opened Seqs

  // ---------------------------------------------------------------- printed words as pieces

  lemma NumeralGroup(x: uint16)
    ensures IsGroup(Numeral(x, 16)) && HexNumber(Numeral(x, 16)) == x
  {
    hide Numeral, Digit, HexNumber, IsHexDigit;
    NumeralHex(x);
    HexWidth(x);
  }

  lemma HexWidth(x: uint16)
    ensures 1 <= |Numeral(x, 16)| <= 4
  {
    hide Digit;
    Hex4(x);
  }

  lemma {:induction false} NumeralHex(n: nat)
    ensures AllHex(Numeral(n, 16)) && HexNumber(Numeral(n, 16)) == n
    decreases n
  {
    hide Digit, IsHexDigit, DigitValue;
    HexDigit(n % 16);
    if n < 16 {
      assert Numeral(n, 16)[..0] == "";
    } else {
      NumeralHex(n / 16);
      var s := Numeral(n, 16);
      assert s[..|s| - 1] == Numeral(n / 16, 16);
    }
  }

  lemma HexDigit(d: nat)
    requires d < 16
    ensures IsHexDigit(Digit(d)) && DigitValue(Digit(d)) == d
  {
    var c := Digit(d);
    assert LowerChar(c) == c;
    DigitsDiffer(d, DigitValue(c));
  }

  function PiecesOf(w: seq<uint16>): seq<Piece> {
    if w == [] then [] else [Hex(Numeral(w[0], 16))] + PiecesOf(w[1..])
  }

  lemma {:induction false} FieldsFront(w: seq<uint16>)
    requires w != []
    ensures Fields(w) == if |w| == 1 then Numeral(w[0], 16) else Numeral(w[0], 16) + (":" + Fields(w[1..]))
  {
    hide Numeral;
    if |w| == 2 {
      assert w[..1] == [w[0]] && w[1..] == [w[1]];
      Associate(Numeral(w[0], 16), ":", Numeral(w[1], 16));
    } else if |w| > 2 {
      var v := w[..|w| - 1];
      FieldsFront(v);
      assert w[1..][..|w[1..]| - 1] == v[1..];
      var x, y, z := Numeral(w[0], 16), Fields(v[1..]), Numeral(w[|w| - 1], 16);
      assert Fields(w[1..]) == y + ":" + z;
      assert x + (":" + y) + ":" + z == x + (":" + (y + ":" + z));
    }
  }

  /** The printed words are pieces that stand for the same bytes. */
  lemma {:induction false} PiecesPrinted(w: seq<uint16>)
    ensures Groupwise(PiecesOf(w)) && (w == [] <==> PiecesOf(w) == [])
    ensures Join(PiecesOf(w)) == Fields(w) && BytesIn(PiecesOf(w)) == BytesOf(w)
  {
    hide Numeral, Fields, Join, IsGroup, HexNumber, PieceText;
    JoinNone();
    if w == [] {
      FieldsEmpty();
    } else {
      var p, rest := Hex(Numeral(w[0], 16)), PiecesOf(w[1..]);
      NumeralGroup(w[0]);
      PiecesPrinted(w[1..]);
      FieldsFront(w);
      WordBytes(w[0], p);
      AddGroup(p, rest, "", []);
      assert PiecesOf(w) == [p] + rest;
      assert [] + BytesIn([p] + rest) == BytesIn([p] + rest) && [] + PieceBytes(p) == PieceBytes(p);
      WordText(p, rest);
    }
  }

  lemma WordBytes(x: uint16, p: Piece)
    requires p == Hex(Numeral(x, 16)) && IsGroup(p.text) && HexNumber(p.text) == x
    ensures PieceBytes(p) == [x / 256, x % 256]
  {}

  lemma WordText(p: Piece, rest: seq<Piece>)
    requires p.Hex?
    ensures Join([p] + rest) == if rest == [] then p.text else p.text + (":" + Join(rest))
  {
    assert ([p] + rest)[1..] == rest;
  }

  lemma BytesOfLength(w: seq<uint16>)
    ensures |BytesOf(w)| == 2 * |w|
  {}

  // ---------------------------------------------------------------- printed bodies

  lemma {:induction false} ZeroBytes(w: seq<uint16>)
    requires forall i :: 0 <= i < |w| ==> w[i] == 0
    ensures BytesOf(w) == Zeros(2 * |w|)
  {
    if w != [] {
      ZeroBytes(w[1..]);
    }
  }

  /** The bytes of the words before, in and after the run. */
  lemma RunBytes(w: seq<uint16>, r: Run)
    requires |w| == 8 && r.start <= r.end <= 8 && ZeroRange(w, r.start, r.end)
    ensures BytesOf(w) == BytesOf(w[..r.start]) + Zeros(2 * (r.end - r.start)) + BytesOf(w[r.end..])
  {
    var x, y, z := w[..r.start], w[r.start..r.end], w[r.end..];
    assert w == x + y + z;
    BytesOfConcat(x + y, z);
    BytesOfConcat(x, y);
    ZeroBytes(y);
  }

  /** Words in text, compressed or not, are spelled by the grammar, and stand for their bytes. */
  lemma Text6Shape(w: seq<uint16>) returns (sh: Shape)
    requires |w| == 8
    ensures WellFormed(sh) && Spelled(sh) == Text6(w, BestRun(w, 8)) && Value(sh) == BytesOf(w)
  {
    hide Fields, Join, BytesIn, BestRun, Good, BytesOf, PiecesOf;
    var r := BestRun(w, 8);
    RunIsCanonical(w);
    BytesOfLength(w);
    if r == NOWHERE {
      PiecesPrinted(w);
      sh := Full(PiecesOf(w));
    } else {
      var x, y := w[..r.start], w[r.end..];
      PiecesPrinted(x);
      PiecesPrinted(y);
      BytesOfLength(x);
      BytesOfLength(y);
      RunBytes(w, r);
      Associate(Fields(x), "::", Fields(y));
      sh := Short(PiecesOf(x), PiecesOf(y));
    }
  }

  lemma FieldFFFF()
    ensures Numeral(0xffff, 16) == "ffff"
  {
    assert Numeral(0xf, 16) == "f";
    assert Numeral(0xff, 16) == "ff";
    assert Numeral(0xfff, 16) == "fff";
  }

  /** An IPv4-mapped address in its mixed form, too. */
  lemma MappedShape(a: byte, b: byte, c: byte, d: byte) returns (sh: Shape)
    ensures WellFormed(sh) && Spelled(sh) == "::ffff:" + Dotted(a, b, c, d)
    ensures Value(sh) == Zeros(10) + [255, 255, a, b, c, d]
  {
    hide Dotted, HexNumber, Numeral, IsGroup, Good, BytesIn, Join, PieceText;
    var p, q := Hex("ffff"), Quad(a, b, c, d);
    var t := Dotted(a, b, c, d);
    MappedTail(a, b, c, d);
    JoinNone();
    sh := Short([], [p] + [q]);
    assert Spelled(sh) == "" + ("::" + ("ffff:" + t));
    assert Value(sh) == [] + Zeros(10) + [255, 255, a, b, c, d];
  }

  lemma MappedTail(a: byte, b: byte, c: byte, d: byte)
    ensures var ps := [Hex("ffff")] + [Quad(a, b, c, d)];
      Good(ps) && Join(ps) == "ffff:" + Dotted(a, b, c, d) && BytesIn(ps) == [255, 255, a, b, c, d]
  {
    hide Dotted, HexNumber, Numeral, IsGroup, Good, BytesIn, Join;
    var p, q := Hex("ffff"), Quad(a, b, c, d);
    var t := Dotted(a, b, c, d);
    FieldFFFF();
    NumeralGroup(0xffff);
    WordBytes(0xffff, p);
    OnePiece(q, t, []);
    assert t + "" == t;
    AddPiece(p, [q], "ffff" + (":" + t), []);
    assert "ffff" + (":" + t) == "ffff:" + t;
    var x, y := BytesIn([p] + [q]), BytesIn([q]);
    assert PieceBytes(p) == [255, 255] && PieceBytes(q) == [a, b, c, d];
    assert [] + x == x && [] + y == y && [] + PieceBytes(q) == PieceBytes(q);
    assert [] + PieceBytes(p) + y == [255, 255, a, b, c, d];
  }

  /** The sixteen bytes of an IPv4-mapped address. */
  lemma MappedBytes(ip: Addr)
    requires ip.Is4In6()
    ensures var m := ip.Unmap();
      AddrFrom16(Zeros(10) + [255, 255, m.V4(0), m.V4(1), m.V4(2), m.V4(3)]) == Addr(ip.addr, Z6(""))
  {
    hide Addr.V4;
    Mapped(ip);
    var m := ip.Unmap();
    BytesRebuild4(m);
    var a, b, c, d := m.V4(0), m.V4(1), m.V4(2), m.V4(3);
    var t := Zeros(10) + [255, 255, a, b, c, d];
    assert t[..8] == [0, 0, 0, 0, 0, 0, 0, 0];
    assert t[8..] == [0, 0, 255, 255, a, b, c, d];
  }

  lemma Body6Shape(ip: Addr) returns (sh: Shape)
    requires ip.Is6()
    ensures WellFormed(sh) && Spelled(sh) == Body6(ip) && AddrFrom16(Value(sh)) == Addr(ip.addr, Z6(""))
  {
    hide Addr.V4, Words, BytesOf, BeUint64, Text6, Dotted, WellFormed, Spelled, Value, BestRun;
    if ip.Is4In6() {
      var m := ip.Unmap();
      sh := MappedShape(m.V4(0), m.V4(1), m.V4(2), m.V4(3));
      MappedBytes(ip);
    } else {
      sh := Text6Shape(Words(ip));
      WordsRebuild(ip);
    }
  }

  // ---------------------------------------------------------------- addresses

  lemma ParseUndoesText4(ip: Addr)
    requires IsValid(ip) && ip.Is4()
    ensures Parse(Text(ip)) == Ok(ip)
  {
    hide Addr.V4, Dotted, Parse;
    BytesRebuild4(ip);
    Parse4Reads([ip.V4(0), ip.V4(1), ip.V4(2), ip.V4(3)]);
  }

  lemma ParseUndoesText6(ip: Addr)
    requires IsValid(ip) && !ip.Is4()
    ensures Parse(Text(ip)) == Ok(ip)
  {
    hide Body6, WellFormed, Spelled, Value, AddrFrom16, Parse;
    var sh := Body6Shape(ip);
    Parse6Reads(Text(ip), sh, ip.z.zone, ip);
  }

  /** ParseAddr undoes String, for every valid address of either family and with any zone. */
  lemma ParseUndoesText(ip: Addr)
    requires IsValid(ip)
    ensures Parse(Text(ip)) == Ok(ip)
  {
    hide *;
    if ip.Is4() {
      ParseUndoesText4(ip);
    } else {
      ParseUndoesText6(ip);
    }
  }

  /** Different addresses have different texts. */
  lemma TextIsInjective(a: Addr, b: Addr)
    requires IsValid(a) && IsValid(b) && Text(a) == Text(b)
    ensures a == b
  {
    ParseUndoesText(a);
    ParseUndoesText(b);
  }

  lemma {:induction false} ParsedIsValid(s: string, i: nat)
    requires i <= |s|
    ensures ParseFrom(s, i).Ok? ==> IsValid(ParseFrom(s, i).value)
    decreases |s| - i
  {
    hide Body, Octets4, Addr.Number;
    if i < |s| {
      ParsedIsValid(s, i + 1);
      if s[i] == ':' {
        BodyIs6(s);
        if IndexByte(s, '%') >= 0 {
          BodyIs6(s[..IndexByte(s, '%')]);
        }
      }
    }
  }

  lemma BodyIs6(s: string)
    ensures Body(s).Ok? ==> Body(s).value.Is6()
  {}

  /** Whatever text was parsed, printing gives a normal form of it: it parses to the same address. */
  lemma TextIsNormalForm(s: string)
    requires Parse(s).Ok?
    ensures Parse(Text(Parse(s).value)) == Parse(s)
  {
    hide Text, ParseFrom;
    ParsedIsValid(s, 0);
    ParseUndoesText(Parse(s).value);
  }
}
