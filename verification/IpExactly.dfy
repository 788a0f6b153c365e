/** The texts that ParseAddr accepts are those of the grammar and no others, and case does not matter. */
module IpExactly {
  import opened Ints
  import opened IpAddr
  import opened IpDotted
  import opened IpFormat
  import opened IpGrammar
  import opened IpParse
  import opened Options

  // ---------------------------------------------------------------- what was read, was spelled so

  /** One step of reading groups: a dotted ending, or a group and what follows it. */
  ghost predicate StepIs(s: string, b: seq<byte>, ell: int, p: Piece, rest: string)
    requires |b| % 2 == 0 && |b| < 16 && -1 <= ell <= |b|
  {
    && (p.Hex? ==> IsGroup(p.text)) && s == PieceText(p) + rest
    && if p.Hex? then Groups(s, b, ell) == AfterGroup(rest, b + PieceBytes(p), ell)
       else rest == "" && Groups(s, b, ell) == Ok(Parsed(b + PieceBytes(p), ell, "")) && (ell < 0 ==> |b| == 12)
  }

  lemma GroupSpelled(s: string, b: seq<byte>, ell: int) returns (p: Piece, rest: string)
    requires |b| % 2 == 0 && |b| < 16 && -1 <= ell <= |b| && Groups(s, b, ell).Ok?
    ensures StepIs(s, b, ell, p, rest)
  {
    hide AfterGroup, ScanFrom, HexNumber, AllHex, Fields4, Dotted;
    ScanShape(s);
    var off := ScanFrom(s, 0, 0).value.off;
    if off < |s| && s[off] == '.' {
      var f := Fields4(s).value;
      FieldsExactly(s, f);
      p, rest := Quad(f[0], f[1], f[2], f[3]), "";
      assert f == [f[0], f[1], f[2], f[3]];
      assert s + "" == s;
    } else {
      p, rest := Hex(s[..off]), s[off..];
      assert s == s[..off] + s[off..];
    }
  }

  ghost predicate TailIs(s: string, b: seq<byte>, ell: int, r: Parsed, y: seq<Piece>) {
    Good(y) && y != [] && Join(y) == s && r == Parsed(b + BytesIn(y), ell, "")
  }

  lemma AddPiece(p: Piece, y: seq<Piece>, s: string, b: seq<byte>)
    requires p.Hex? && IsGroup(p.text) && Good(y) && s == PieceText(p) + if y == [] then "" else ":" + Join(y)
    ensures Good([p] + y) && Join([p] + y) == s
    ensures b + BytesIn([p] + y) == b + PieceBytes(p) + BytesIn(y)
  {
    hide PieceBytes, IsGroup;
    var all := [p] + y;
    assert all[1..] == y;
    BytesMore(all, b);
    if y == [] {
      assert PieceText(p) + "" == PieceText(p);
    }
  }

  lemma OnePiece(p: Piece, s: string, b: seq<byte>)
    requires p.Quad? && s == PieceText(p) + ""
    ensures Good([p]) && Join([p]) == s && b + BytesIn([p]) == b + PieceBytes(p)
  {
    hide PieceBytes, Dotted;
    assert PieceBytes(p) + [] == PieceBytes(p);
  }

  lemma AfterColon(s: string, b: seq<byte>, ell: int)
    requires |b| % 2 == 0 && |b| <= 16 && -1 <= ell <= |b| && AfterGroup(s, b, ell).Ok? && s != ""
    ensures |s| >= 2 && s[0] == ':'
    ensures s[1] != ':' ==> AfterGroup(s, b, ell) == Groups(s[1..], b, ell) && s == ":" + s[1..]
    ensures s[1] == ':' ==> ell < 0 && AfterGroup(s, b, ell) == AfterEllipsis(s[2..], b) && s == "::" + s[2..]
  {
    hide Groups;
  }

  /** With the ellipsis behind it, the text is pieces to its end. */
  lemma {:induction false} TailSpelled(s: string, b: seq<byte>, ell: int) returns (y: seq<Piece>)
    requires |b| % 2 == 0 && |b| <= 16 && 0 <= ell <= |b| && s != ""
    requires Groups(s, b, ell).Ok? && Groups(s, b, ell).value.rest == ""
    ensures TailIs(s, b, ell, Groups(s, b, ell).value, y)
    decreases |s|
  {
    hide AfterGroup, PieceBytes, Join, BytesIn, Good, PieceText;
    assert |b| < 16;
    var p, rest := GroupSpelled(s, b, ell);
    if p.Quad? {
      y := [p];
      OnePiece(p, s, b);
    } else {
      var tail: seq<Piece> := [];
      Shorter(p, s, rest);
      JoinNone();
      if rest != "" {
        AfterColon(rest, b + PieceBytes(p), ell);
        tail := TailSpelled(rest[1..], b + PieceBytes(p), ell);
      } else {
        AtEnd(b + PieceBytes(p), ell);
        assert b + PieceBytes(p) + [] == b + PieceBytes(p);
      }
      AddPiece(p, tail, s, b);
      y := [p] + tail;
    }
  }

  lemma Shorter(p: Piece, s: string, rest: string)
    requires p.Hex? && IsGroup(p.text) && s == PieceText(p) + rest
    ensures |rest| < |s|
  {}

  lemma AtEnd(b: seq<byte>, ell: int)
    requires |b| % 2 == 0 && |b| <= 16 && -1 <= ell <= |b|
    ensures AfterGroup("", b, ell) == Ok(Parsed(b, ell, ""))
  {}

  /** A text without an ellipsis so far: pieces to its end, or groups, an ellipsis, and pieces. */
  ghost predicate FrontIs(s: string, b: seq<byte>, r: Parsed, x: seq<Piece>, y: seq<Piece>, short: bool) {
    if short then
      && Groupwise(x) && x != [] && Good(y) && s == Join(x) + ("::" + Join(y))
      && r == Parsed(b + BytesIn(x) + BytesIn(y), |b| + |BytesIn(x)|, "")
    else TailIs(s, b, -1, r, x)
  }

  lemma AddGroup(p: Piece, x: seq<Piece>, tail: string, b: seq<byte>)
    requires p.Hex? && IsGroup(p.text) && Groupwise(x)
    ensures Groupwise([p] + x) && b + BytesIn([p] + x) == b + PieceBytes(p) + BytesIn(x)
    ensures |BytesIn([p] + x)| == 2 + |BytesIn(x)|
    ensures x == [] ==> PieceText(p) + tail == Join([p] + x) + tail
    ensures x != [] ==> PieceText(p) + (":" + (Join(x) + tail)) == Join([p] + x) + tail
  {
    hide PieceBytes, IsGroup;
    var all := [p] + x;
    assert all[1..] == x;
    BytesMore(all, b);
    if x != [] {
      SplitTail(PieceText(p), Join(x), tail);
    }
  }

  lemma {:induction false} FrontSpelled(s: string, b: seq<byte>) returns (x: seq<Piece>, y: seq<Piece>, short: bool)
    requires |b| % 2 == 0 && |b| <= 16 && s != ""
    requires Groups(s, b, -1).Ok? && Groups(s, b, -1).value.rest == ""
    ensures FrontIs(s, b, Groups(s, b, -1).value, x, y, short)
    decreases |s|
  {
    hide AfterGroup, PieceBytes, Join, BytesIn, Good, PieceText, Groupwise;
    assert |b| < 16;
    var p, rest := GroupSpelled(s, b, -1);
    JoinNone();
    if p.Quad? {
      x, y, short := [p], [], false;
      OnePiece(p, s, b);
      return;
    }
    Shorter(p, s, rest);
    var b' := b + PieceBytes(p);
    if rest == "" {
      AtEnd(b', -1);
      assert b' + [] == b';
      AddPiece(p, [], s, b);
      x, y, short := [p] + [], [], false;
    } else {
      AfterColon(rest, b', -1);
      if rest[1] == ':' {
        short, x := true, [p] + [];
        NoneGroupwise();
        AddGroup(p, [], rest, b);
        y := EllipsisSpelled(rest[2..], b');
        assert b' + [] == b';
      } else {
        x, y, short := FrontSpelled(rest[1..], b');
        if short {
          AddGroup(p, x, "::" + Join(y), b);
        } else {
          AddPiece(p, x, s, b);
        }
        x := [p] + x;
      }
    }
  }

  lemma NoneGroupwise()
    ensures Groupwise([])
  {}

  /** Behind an ellipsis: nothing, or pieces to the end. */
  lemma EllipsisSpelled(tail: string, b: seq<byte>) returns (y: seq<Piece>)
    requires |b| % 2 == 0 && |b| <= 16 && AfterEllipsis(tail, b).Ok? && AfterEllipsis(tail, b).value.rest == ""
    ensures Good(y) && tail == Join(y) && AfterEllipsis(tail, b) == Ok(Parsed(b + BytesIn(y), |b|, ""))
  {
    hide Groups, Join, BytesIn, Good;
    JoinNone();
    if tail == "" {
      y := [];
      assert b + [] == b;
    } else {
      y := TailSpelled(tail, b, |b|);
    }
  }

  /** A text that is read as the body of an IPv6 address has one of the two shapes. */
  lemma BodySpelled(s: string) returns (sh: Shape)
    requires Body(s).Ok?
    ensures WellFormed(sh) && Spelled(sh) == s
  {
    hide Groups, Join, BytesIn, Good, AddrFrom16, Groupwise;
    JoinNone();
    NoneGroupwise();
    if |s| >= 2 && s[0] == ':' && s[1] == ':' {
      var y := LeadingSpelled(s[2..]);
      sh := Short([], y);
      assert s == "" + ("::" + s[2..]);
    } else {
      Nonempty(s);
      var x, y, short := FrontSpelled(s, []);
      sh := if short then Short(x, y) else Full(x);
      FrontFits(s, Groups(s, [], -1).value, x, y, short);
    }
  }

  lemma Nonempty(s: string)
    requires Groups(s, [], -1).Ok?
    ensures s != ""
  {}

  lemma FrontFits(s: string, r: Parsed, x: seq<Piece>, y: seq<Piece>, short: bool)
    requires FrontIs(s, [], r, x, y, short) && |r.bytes| <= 16 && -1 <= r.ellipsis <= |r.bytes| && Finish(r).Ok?
    ensures WellFormed(if short then Short(x, y) else Full(x)) && Spelled(if short then Short(x, y) else Full(x)) == s
  {
    hide Join, BytesIn, Good;
    assert [] + BytesIn(x) == BytesIn(x);
  }

  lemma LeadingSpelled(tail: string) returns (y: seq<Piece>)
    requires Body("::" + tail).Ok?
    ensures Good(y) && Join(y) == tail && |BytesIn(y)| < 16
  {
    hide Groups, Join, BytesIn, Good, AddrFrom16;
    JoinNone();
    assert ("::" + tail)[2..] == tail;
    y := EllipsisSpelled(tail, []);
    assert [] + BytesIn(y) == BytesIn(y);
  }

  /** The texts that are read are the texts of the grammar, each with the address it spells. */
  lemma BodyExactly(s: string, a: Addr)
    ensures Body(s) == Ok(a) <==> exists sh :: WellFormed(sh) && s == Spelled(sh) && a == AddrFrom16(Value(sh))
  {
    hide Body, WellFormed, Value, Spelled, AddrFrom16;
    if Body(s).Ok? {
      var sh := BodySpelled(s);
      BodyReads(sh);
    }
    if sh :| WellFormed(sh) && s == Spelled(sh) && a == AddrFrom16(Value(sh)) {
      BodyReads(sh);
    }
  }

  // ---------------------------------------------------------------- whole addresses

  ghost predicate NoZone(s: string) {
    forall i :: 0 <= i < |s| ==> s[i] != '%'
  }

  /** No zone in it, and hex digits up to the first mark, which is a colon. */
  ghost predicate Looks6(s: string, k: nat) {
    NoZone(s) && k < |s| && s[k] == ':' && forall i :: 0 <= i < k ==> IsHex(s[i])
  }

  lemma PieceNoZone(p: Piece)
    requires p.Hex? ==> IsGroup(p.text)
    ensures NoZone(PieceText(p))
  {
    hide Dotted, IsHexDigit, IsHex;
    if p.Hex? {
      forall i | 0 <= i < |p.text|
        ensures p.text[i] != '%'
      {
        HexAgrees(p.text[i]);
        PercentIsNoDigit();
      }
    } else {
      DottedPlain(p.a, p.b, p.c, p.d);
    }
  }

  lemma PercentIsNoDigit()
    ensures !IsHex('%') && !IsHex(':') && !IsHex('.')
  {}

  lemma {:induction false} JoinNoZone(ps: seq<Piece>)
    requires Good(ps)
    ensures NoZone(Join(ps))
  {
    hide IsGroup, PieceText;
    if ps != [] {
      PieceNoZone(ps[0]);
      if |ps| > 1 {
        JoinNoZone(ps[1..]);
      }
    }
  }

  lemma GroupMark(p: Piece, rest: string) returns (k: nat)
    requires p.Hex? && IsGroup(p.text)
    ensures k == |PieceText(p)| && (PieceText(p) + (":" + rest))[k] == ':'
    ensures forall i :: 0 <= i < k ==> IsHex((PieceText(p) + (":" + rest))[i])
  {
    hide IsHexDigit, IsHex;
    k := |p.text|;
    forall i | 0 <= i < k
      ensures IsHex(p.text[i])
    {
      HexAgrees(p.text[i]);
    }
  }

  lemma SpelledLooks6(sh: Shape) returns (k: nat)
    requires WellFormed(sh)
    ensures Looks6(Spelled(sh), k)
  {
    hide IsHex, IsGroup, PieceText, Join, PieceBytes;
    JoinNone();
    match sh
    case Full(ps) =>
      JoinNoZone(ps);
      assert ps[0].Hex? && |ps| > 1;
      JoinMore(ps);
      k := GroupMark(ps[0], Join(ps[1..]));
    case Short(x, y) =>
      JoinNoZone(x);
      JoinNoZone(y);
      var tail := ":" + Join(y);
      assert "::" + Join(y) == ":" + tail;
      if x == [] {
        k := 0;
      } else if |x| == 1 {
        JoinOne(x);
        k := GroupMark(x[0], tail);
      } else {
        JoinMore(x);
        SplitTail(PieceText(x[0]), Join(x[1..]), "::" + Join(y));
        k := GroupMark(x[0], Join(x[1..]) + ("::" + Join(y)));
      }
  }

  ghost predicate Is6Text(t: string, sh: Shape, zone: string, a: Addr) {
    WellFormed(sh) && t == Spelled(sh) + ZoneText(zone) && a == AddrFrom16(Value(sh)).WithZone(zone)
  }

  lemma {:induction false} IndexPast(body: string, c: char, tail: string)
    requires forall i :: 0 <= i < |body| ==> body[i] != c
    ensures IndexByte(body, c) == -1
    ensures IndexByte(body + ([c] + tail), c) == |body|
  {
    if body != "" {
      IndexPast(body[1..], c, tail);
      assert (body + ([c] + tail))[1..] == body[1..] + ([c] + tail);
    }
  }

  predicate IsMark(c: char) {
    c == '.' || c == ':' || c == '%'
  }

  /** The form is decided by the first mark. */
  lemma {:induction false} FirstMark(s: string, i: nat, k: nat)
    requires i <= k <= |s| && forall j :: i <= j < k ==> !IsMark(s[j])
    ensures ParseFrom(s, i) == ParseFrom(s, k)
    decreases k - i
  {
    if i < k {
      FirstMark(s, i + 1, k);
    }
  }

  lemma HexNoMark(c: char)
    ensures IsHex(c) ==> !IsMark(c)
  {}

  /** Hex digits up to the first mark. */
  lemma MarkBehindHex(s: string, k: nat)
    requires k < |s| && forall j :: 0 <= j < k ==> IsHex(s[j])
    ensures ParseFrom(s, 0) == ParseFrom(s, k)
  {
    hide IsHex, IsMark, ParseFrom;
    forall j | 0 <= j < k
      ensures !IsMark(s[j])
    {
      HexNoMark(s[j]);
    }
    FirstMark(s, 0, k);
  }

  /** What is refused as a whole: a text without a mark, one whose first mark is '%', and a zone without a name. */
  lemma RefusedAsWhole(s: string, k: nat)
    requires k <= |s| && forall j :: 0 <= j < k ==> !IsMark(s[j])
    ensures k == |s| ==> Parse(s) == Err(UnableToParse)
    ensures k < |s| && s[k] == '%' ==> Parse(s) == Err(MissingAddress)
    ensures k < |s| && s[k] == ':' && NoZone(s) ==> Parse(s + "%") == Err(EmptyZone)
  {
    hide IsMark, Body, IndexByte;
    FirstMark(s, 0, k);
    if k < |s| && s[k] == ':' && NoZone(s) {
      var t := s + "%";
      assert forall j :: 0 <= j < |s| ==> t[j] == s[j];
      FirstMark(t, 0, k);
      assert t == s + (['%'] + "");
      IndexPast(s, '%', "");
    }
  }

  lemma AtDot(s: string, k: nat)
    requires k < |s| && s[k] == '.'
    ensures ParseFrom(s, k) == Parse4(s)
  {}

  lemma AtColon(s: string, k: nat)
    requires k < |s| && s[k] == ':'
    ensures ParseFrom(s, k) == Parse6(s)
  {}

  lemma {:induction false} ParsedByForm(s: string, i: nat)
    requires i <= |s| && ParseFrom(s, i).Ok?
    ensures ParseFrom(s, i) == Parse4(s) || ParseFrom(s, i) == Parse6(s)
    decreases |s| - i
  {
    hide Parse4, Parse6;
    if i < |s| && s[i] != '.' && s[i] != ':' {
      ParsedByForm(s, i + 1);
    }
  }

  lemma Parse4Reads(b: seq<byte>)
    requires |b| == 4
    ensures Parse(Dotted(b[0], b[1], b[2], b[3])) == Ok(AddrFrom4(b))
  {
    hide Dotted, ParseFrom, Fields4, IsHex, IsDecimal, Plain;
    var s := Dotted(b[0], b[1], b[2], b[3]);
    DottedPlain(b[0], b[1], b[2], b[3]);
    FieldsExactly(s, b);
    var k :| 0 < k < |s| && s[k] == '.' && forall i :: 0 <= i < k ==> IsDecimal(s[i]);
    forall i | 0 <= i < k
      ensures IsHex(s[i])
    {
      DecimalIsHex(s[i]);
    }
    MarkBehindHex(s, k);
    AtDot(s, k);
  }

  lemma DecimalIsHex(c: char)
    ensures IsDecimal(c) ==> IsHex(c)
  {}

  lemma Parse6Reads(t: string, sh: Shape, zone: string, a: Addr)
    requires Is6Text(t, sh, zone, a)
    ensures Parse(t) == Ok(a)
  {
    hide WellFormed, Value, Spelled, AddrFrom16, Body, ParseFrom, IsHex, IndexByte;
    var s := Spelled(sh);
    var k := SpelledLooks6(sh);
    BodyReads(sh);
    assert t[..|s|] == s;
    IndexPast(s, '%', zone);
    assert forall i :: 0 <= i < |s| ==> t[i] == s[i];
    MarkBehindHex(t, k);
    AtColon(t, k);
    if zone == "" {
      NoZoneYet(Value(sh));
      assert t == s;
    } else {
      assert t == s + (['%'] + zone);
      assert t[|s| + 1..] == zone;
    }
  }

  lemma Parse6Spelled(t: string, a: Addr) returns (sh: Shape, zone: string)
    requires Parse6(t) == Ok(a)
    ensures Is6Text(t, sh, zone, a)
  {
    hide WellFormed, Value, Spelled, AddrFrom16, Body, IndexByte;
    var i := IndexByte(t, '%');
    var s := if i == -1 then t else t[..i];
    zone := if i == -1 then "" else t[i + 1..];
    sh := BodySpelled(s);
    BodyReads(sh);
    IndexIs(t, '%');
    assert t == s + ZoneText(zone);
    NoZoneYet(Value(sh));
  }

  lemma NoZoneYet(b: seq<byte>)
    requires |b| == 16
    ensures AddrFrom16(b).WithZone("") == AddrFrom16(b)
  {}

  lemma {:induction false} IndexIs(s: string, c: char)
    ensures IndexByte(s, c) >= 0 ==> s[IndexByte(s, c)] == c
  {
    if s != "" {
      IndexIs(s[1..], c);
    }
  }

  ghost predicate Is4Text(t: string, b: seq<byte>, a: Addr) {
    |b| == 4 && t == Dotted(b[0], b[1], b[2], b[3]) && a == AddrFrom4(b)
  }

  /**
   * ParseAddr accepts the canonical dotted form, and the texts of the IPv6
   * grammar with an optional zone; nothing else; and it gives the address that
   * the text spells.
   */
  lemma ParseExactly(t: string, a: Addr)
    ensures Parse(t) == Ok(a) <==> (exists b :: Is4Text(t, b, a)) || (exists sh, zone :: Is6Text(t, sh, zone, a))
  {
    hide Is6Text, Parse6, ParseFrom, Fields4, Dotted;
    if Parse(t) == Ok(a) {
      ParsedByForm(t, 0);
      if Parse4(t) == Ok(a) {
        var b := Fields4(t).value;
        FieldsExactly(t, b);
        assert Is4Text(t, b, a);
      } else {
        var sh, zone := Parse6Spelled(t, a);
      }
    }
    if b :| Is4Text(t, b, a) {
      Parse4Reads(b);
    }
    if sh, zone :| Is6Text(t, sh, zone, a) {
      Parse6Reads(t, sh, zone, a);
    }
  }

  // ---------------------------------------------------------------- upper and lower case

  lemma LowerKeeps(c: char)
    ensures IsHex(LowerChar(c)) <==> IsHex(c)
    ensures IsHex(c) ==> HexValue(LowerChar(c)) == HexValue(c)
    ensures IsDecimal(c) || c == '.' || c == ':' || c == '%' ==> LowerChar(c) == c
    ensures IsDecimal(LowerChar(c)) || LowerChar(c) == '.' || LowerChar(c) == ':' || LowerChar(c) == '%' ==>
              LowerChar(c) == c
  {}

  lemma LowerParts(s: string, i: nat)
    requires i <= |s|
    ensures Lower(s)[..i] == Lower(s[..i]) && Lower(s)[i..] == Lower(s[i..])
  {
    hide LowerChar;
  }

  lemma {:induction false} LowerScan(s: string, off: nat, acc: nat)
    requires off <= |s| && acc <= 0xffff
    ensures ScanFrom(Lower(s), off, acc) == ScanFrom(s, off, acc)
    decreases |s| - off
  {
    hide Lower, LowerChar, IsHex, HexValue;
    if off < |s| {
      LowerKeeps(s[off]);
      if IsHex(s[off]) && off <= 3 && acc * 16 + HexValue(s[off]) <= 0xffff {
        LowerScan(s, off + 1, acc * 16 + HexValue(s[off]));
      }
    }
  }

  /** The same text, but perhaps with some letters in lower case. */
  ghost predicate CaseOf(l: string, s: string) {
    |l| == |s| && forall i :: 0 <= i < |s| ==> l[i] == s[i] || l[i] == LowerChar(s[i])
  }

  lemma {:induction false} LowerOctets(l: string, s: string, i: nat, val: nat, digLen: nat, done: seq<byte>)
    requires CaseOf(l, s) && i <= |s| && val <= 255 && |done| <= 3
    ensures Octets4(l, i, val, digLen, done) == Octets4(s, i, val, digLen, done)
    decreases |s| - i
  {
    hide LowerChar, IsDecimal;
    if i < |s| {
      LowerKeeps(s[i]);
      if i > 0 {
        LowerKeeps(s[i - 1]);
      }
      if IsDecimal(s[i]) {
        LowerDigit(l, s, i, val, digLen, done);
      } else if s[i] == '.' && |done| < 3 {
        LowerOctets(l, s, i + 1, 0, 0, done + [val]);
      }
    }
  }

  lemma {:induction false} LowerDigit(l: string, s: string, i: nat, val: nat, digLen: nat, done: seq<byte>)
    requires CaseOf(l, s) && i < |s| && val <= 255 && |done| <= 3 && IsDecimal(s[i])
    ensures Octets4(l, i, val, digLen, done) == Octets4(s, i, val, digLen, done)
    decreases |s| - i, 0
  {
    hide LowerChar;
    LowerKeeps(s[i]);
    var v := val * 10 + (s[i] - '0') as int;
    if v <= 255 {
      LowerOctets(l, s, i + 1, v, digLen + 1, done);
    }
  }

  /** What is left of the text is in lower case too. */
  function LowerRest(r: Answer<Parsed>): Answer<Parsed> {
    if r.Err? then r else Ok(r.value.(rest := Lower(r.value.rest)))
  }

  lemma {:induction false} LowerGroups(s: string, b: seq<byte>, ell: int)
    requires |b| % 2 == 0 && |b| <= 16 && -1 <= ell <= |b|
    ensures Groups(Lower(s), b, ell) == LowerRest(Groups(s, b, ell))
    decreases |s|, 1
  {
    hide LowerChar, Lower, ScanFrom, Octets4;
    LowerScan(s, 0, 0);
    LowerIs(s);
    LowerOctets(Lower(s), s, 0, 0, 0, []);
    assert Lower("") == "";
    if |b| < 16 && ScanFrom(s, 0, 0).Ok? {
      var off, acc := ScanFrom(s, 0, 0).value.off, ScanFrom(s, 0, 0).value.acc;
      LowerParts(s, off);
      if off < |s| {
        LowerKeeps(s[off]);
      }
      if off > 0 && !(off < |s| && s[off] == '.') {
        LowerAfter(s[off..], b + [acc / 256, acc % 256], ell);
      }
    }
  }

  lemma {:induction false} LowerAfter(s: string, b: seq<byte>, ell: int)
    requires |b| % 2 == 0 && |b| <= 16 && -1 <= ell <= |b|
    ensures AfterGroup(Lower(s), b, ell) == LowerRest(AfterGroup(s, b, ell))
    decreases |s|, 0
  {
    hide LowerChar, Lower, Groups;
    assert Lower("") == "";
    if s != "" {
      LowerKeeps(s[0]);
    }
    if |s| > 1 {
      LowerKeeps(s[1]);
      LowerParts(s, 1);
      LowerParts(s, 2);
      LowerGroups(s[1..], b, ell);
      LowerGroups(s[2..], b, |b|);
    }
  }

  lemma LowerBody(s: string)
    ensures Body(Lower(s)) == Body(s)
  {
    hide LowerChar, Lower, Groups, Finish, AddrFrom16;
    LowerGroups(s, [], -1);
    if |s| >= 2 {
      LowerKeeps(s[0]);
      LowerKeeps(s[1]);
      LowerParts(s, 2);
      LowerGroups(s[2..], [], 0);
    }
    forall p: Parsed | |p.bytes| <= 16 && -1 <= p.ellipsis <= |p.bytes|
      ensures Finish(p.(rest := Lower(p.rest))) == Finish(p)
    {
      LowerFinish(p);
    }
  }

  lemma LowerIs(s: string)
    ensures CaseOf(Lower(s), s)
  {
    hide LowerChar;
  }

  lemma LowerFinish(p: Parsed)
    requires |p.bytes| <= 16 && -1 <= p.ellipsis <= |p.bytes|
    ensures Finish(p.(rest := Lower(p.rest))) == Finish(p)
  {
    assert |Lower(p.rest)| == |p.rest|;
  }

  lemma {:induction false} LowerForm(body: string, tail: string, i: nat)
    requires NoZone(body) && (tail == "" || tail[0] == '%') && i <= |body|
    ensures ParseFrom(Lower(body) + tail, i) == ParseFrom(body + tail, i)
    decreases |body| - i
  {
    hide LowerChar, Lower, Octets4, Parse6;
    var s, l := body + tail, Lower(body) + tail;
    if i < |body| {
      assert s[i] == body[i] && l[i] == Lower(body)[i] == LowerChar(body[i]);
      LowerKeeps(body[i]);
      LowerForm(body, tail, i + 1);
      LowerOctets(l, s, 0, 0, 0, []);
      LowerParse6(body, tail);
    } else if tail != "" {
      assert s[i] == tail[0] == l[i];
    }
  }

  lemma LowerParse6(body: string, tail: string)
    requires NoZone(body) && (tail == "" || tail[0] == '%')
    ensures Parse6(Lower(body) + tail) == Parse6(body + tail)
  {
    hide LowerChar, Lower, Body, IndexByte;
    LowerBody(body);
    forall i | 0 <= i < |body|
      ensures Lower(body)[i] != '%'
    {
      LowerKeeps(body[i]);
    }
    if tail == "" {
      assert body + tail == body && Lower(body) + tail == Lower(body);
      IndexPast(body, '%', "");
      IndexPast(Lower(body), '%', "");
    } else {
      assert tail == ['%'] + tail[1..];
      IndexPast(body, '%', tail[1..]);
      IndexPast(Lower(body), '%', tail[1..]);
      assert (body + tail)[..|body|] == body && (Lower(body) + tail)[..|body|] == Lower(body);
      assert (body + tail)[|body| + 1..] == tail[1..] == (Lower(body) + tail)[|body| + 1..];
    }
  }

  /** Case does not matter in front of a zone: the same address, or the same error. */
  lemma CaseIsFree(body: string, tail: string)
    requires NoZone(body) && (tail == "" || tail[0] == '%')
    ensures Parse(Lower(body) + tail) == Parse(body + tail)
  {
    hide LowerChar, Lower, ParseFrom;
    LowerForm(body, tail, 0);
  }
}
