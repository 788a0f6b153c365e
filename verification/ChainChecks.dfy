/**
 * What the decoder of auth_chain lets through, on any input: only frames that
 * a peer in lockstep could have packed, and nothing once a digest is wrong.
 */
module ChainChecks {
  import opened Bytes
  import opened ChainFrames
  import opened Ints
  import opened Seqs
  import opened SsrBase

  lemma PutU16OfGet(b: bytes)
    requires |b| == 2
    ensures PutU16LE(U16LE(b)) == b
  {}

  /** The padding around the data that fills a frame's middle. */
  function Around(l: Layout, mixed: bytes, n: nat): (pad: bytes)
    requires |mixed| == n + l.pad
    ensures |pad| == l.pad
  {
    if n == 0 then mixed else mixed[..l.start] + mixed[l.start + n..]
  }

  lemma SliceOfSlice(b: bytes, i: nat, j: nat, at: nat, n: nat)
    requires i <= j <= |b| && at + n <= j - i
    ensures b[i..j][at..at + n] == b[i + at..i + at + n]
  {
    var x, y := b[i..j][at..at + n], b[i + at..i + at + n];
    assert forall k :: 0 <= k < n ==> x[k] == y[k];
  }

  lemma MixedAgain(l: Layout, mixed: bytes, n: nat)
    requires |mixed| == n + l.pad
    ensures var at := if n == 0 then 0 else l.start;
      Mixed(l, mixed[at..at + n], Around(l, mixed, n)) == mixed
  {
    if n > 0 {
      var pad := Around(l, mixed, n);
      assert pad[..l.start] == mixed[..l.start] && pad[l.start..] == mixed[l.start + n..];
      assert mixed == mixed[..l.start] + mixed[l.start..l.start + n] + mixed[l.start + n..];
    }
  }

  /** A frame the decoder takes is one that a peer in lockstep packs from some piece. */
  lemma TakenIsPacked(c: Config, s: Side, src: bytes) returns (p: Piece)
    requires LookAt(c, s, src).Take?
    ensures var l := LookAt(c, s, src);
      && Suits(c, s, p) && Packed(c, s, p) == src[..l.size]
      && l.data == p.data && l.next == Next(c, s, p) && (s.id == 1 ==> |p.data| >= 2)
  {
    hide MacKey, Crypt, Masked, Mixed, Around;
    var look := LookAt(c, s, src);
    var n := Masked(U16LE(src[..2]), s.tail);
    var l := c.layout(s.tail, n);
    var mixed := src[2..2 + n + l.pad];
    p := Piece(look.data, Around(l, mixed, n));
    var at := if n == 0 then 0 else l.start;
    var enc := mixed[at..at + n];
    var pos := DataStart(l, n);
    SliceOfSlice(src, 2, 2 + n + l.pad, at, n);
    assert src[pos..pos + n] == enc;
    MixedAgain(l, mixed, n);
    CryptTwice(c.keyStream, s.pos, enc);
    MaskedTwice(U16LE(src[..2]), s.tail);
    PutU16OfGet(src[..2]);
    assert Front(c, s, p) == src[..2] + mixed == src[..n + l.pad + 2];
    assert src[..look.size] == src[..n + l.pad + 2] + src[n + l.pad + 2..look.size];
  }

  /** A frame is taken exactly when a peer in lockstep could have sent it, and a bare one when a byte follows. */
  lemma TakenExactly(c: Config, s: Side, src: bytes)
    ensures LookAt(c, s, src).Take? <==>
      |src| > 4 && exists p :: Suits(c, s, p) && Packed(c, s, p) <= src && (s.id == 1 ==> |p.data| >= 2)
  {
    hide LookAt, Packed, Suits, Next;
    if LookAt(c, s, src).Take? {
      var p := TakenIsPacked(c, s, src);
      if |src| <= 4 {
        ShortStops(c, s, src);
      }
    }
    if |src| > 4 && exists p :: Suits(c, s, p) && Packed(c, s, p) <= src && (s.id == 1 ==> |p.data| >= 2) {
      var p :| Suits(c, s, p) && Packed(c, s, p) <= src && (s.id == 1 ==> |p.data| >= 2);
      LookAtWhole(c, s, p, src);
    }
  }

  lemma ShortStops(c: Config, s: Side, src: bytes)
    requires |src| <= 4
    ensures LookAt(c, s, src) == Stop(More)
  {}

  /** A frame with another digest behind it is refused, whichever of the two bytes differs. */
  lemma TamperedStops(c: Config, s: Side, p: Piece, digest: bytes, rest: bytes)
    requires Suits(c, s, p) && |digest| == 2 && digest != c.hmac(MacKey(c, s.id), Front(c, s, p))[..2]
    requires Bare(p) ==> rest != []
    ensures LookAt(c, s, Front(c, s, p) + digest + rest) == Stop(ChecksumError)
  {
    hide MacKey, Crypt, Masked, Mixed, DataStart;
    var front := Front(c, s, p);
    var src := front + digest + rest;
    PackedSize(c, s, p);
    var field := PutU16LE(Masked(|p.data|, s.tail));
    assert src[..2] == front[..2] == field;
    RoundTrip16(Masked(|p.data|, s.tail), []);
    assert field + [] == field;
    MaskedTwice(|p.data|, s.tail);
    assert src[..|front|] == front && src[|front|..|front| + 2] == digest;
  }

  /** A length field that announces 4096 bytes or more is refused at once. */
  lemma TooLongStops(c: Config, s: Side, n: uint16, rest: bytes)
    requires n + c.layout(s.tail, n).pad >= 4096 && |rest| > 2
    ensures Decode(c, false, s, PutU16LE(Masked(n, s.tail)) + rest) == Outcome(true, s, [], [], LengthError)
  {
    hide Masked;
    var src := PutU16LE(Masked(n, s.tail)) + rest;
    assert src[..2] == PutU16LE(Masked(n, s.tail));
    RoundTrip16(Masked(n, s.tail), []);
    assert PutU16LE(Masked(n, s.tail)) + [] == PutU16LE(Masked(n, s.tail));
    MaskedTwice(n, s.tail);
  }

  lemma RefusedAtOnce(c: Config, s: Side, src: bytes)
    requires LookAt(c, s, src) == Stop(ChecksumError)
    ensures Decode(c, false, s, src) == Outcome(true, s, [], [], ChecksumError)
  {}

  /**
   * Frames of a peer in lockstep, then one with a wrong digest: the data of
   * the good ones is passed on, the rest is dropped, and decoding ends with
   * the checksum error.
   */
  lemma {:induction false} TamperedRun(c: Config, s: Side, ps: seq<Piece>, p: Piece, digest: bytes, rest: bytes)
    requires AllSuit(c, s, ps) && Readable(s.id, ps)
    requires var t := After(c, s, ps);
      && Suits(c, t, p) && |digest| == 2 && digest != c.hmac(MacKey(c, t.id), Front(c, t, p))[..2]
      && (Bare(p) ==> rest != [])
    ensures var t := After(c, s, ps);
      Decode(c, false, s, Frames(c, s, ps) + (Front(c, t, p) + digest + rest))
        == Outcome(true, t, Passed(c, s, ps), [], ChecksumError)
    decreases |ps|
  {
    hide Suits, Packed, Next, Front, MacKey, Decode, Strip, LookAt;
    var t := After(c, s, ps);
    var bad := Front(c, t, p) + digest + rest;
    if ps == [] {
      TamperedStops(c, s, p, digest, rest);
      RefusedAtOnce(c, s, bad);
      assert [] + bad == bad;
    } else {
      var next := Next(c, s, ps[0]);
      NextNumber(c, s, ps[0]);
      TamperedRun(c, next, ps[1..], p, digest, rest);
      Associate(Packed(c, s, ps[0]), Frames(c, next, ps[1..]), bad);
      DecodeFirst(c, s, ps[0], Frames(c, next, ps[1..]) + bad);
    }
  }

  /**
   * Whatever comes in: there is a run of pieces that a peer in lockstep could
   * have packed, its frames are the front of the input, and just its data has
   * been passed on.
   */
  ghost predicate Explained(c: Config, s: Side, src: bytes, ps: seq<Piece>) {
    var o := Decode(c, false, s, src);
    && AllSuit(c, s, ps) && Readable(s.id, ps) && Frames(c, s, ps) <= src
    && o.out == Passed(c, s, ps) && o.side == After(c, s, ps)
    && (o.raw <==> o.end == ChecksumError || o.end == LengthError)
    && (if o.raw then o.rest == [] else src == Frames(c, s, ps) + o.rest)
  }

  lemma ExplainedAtOnce(c: Config, s: Side, src: bytes)
    requires LookAt(c, s, src).Stop?
    ensures Explained(c, s, src, [])
  {
    hide LookAt;
    assert [] + src == src;
  }

  lemma ExplainedStep(c: Config, s: Side, p: Piece, rest: bytes, ps: seq<Piece>)
    requires Suits(c, s, p) && (s.id == 1 ==> |p.data| >= 2) && (Bare(p) ==> rest != [])
    requires Explained(c, Next(c, s, p), rest, ps)
    ensures Explained(c, s, Packed(c, s, p) + rest, [p] + ps)
  {
    hide Suits, Packed, Next, Decode, Strip;
    var all := [p] + ps;
    assert all[1..] == ps;
    NextNumber(c, s, p);
    DecodeFirst(c, s, p, rest);
    var o := Decode(c, false, Next(c, s, p), rest);
    Associate(Packed(c, s, p), Frames(c, Next(c, s, p), ps), o.rest);
    var gone := rest[|Frames(c, Next(c, s, p), ps)|..];
    assert rest == Frames(c, Next(c, s, p), ps) + gone;
    Associate(Packed(c, s, p), Frames(c, Next(c, s, p), ps), gone);
  }

  /** Only what a peer in lockstep could have sent is ever passed on, on any input. */
  lemma {:induction false} DecodedIsGenuine(c: Config, s: Side, src: bytes) returns (ps: seq<Piece>)
    ensures Explained(c, s, src, ps)
    decreases |src|
  {
    hide LookAt, Explained, Packed, Suits, Next;
    match LookAt(c, s, src)
    case Stop(_) =>
      ps := [];
      ExplainedAtOnce(c, s, src);
    case Take(size, data, next) =>
      var p := TakenIsPacked(c, s, src);
      PackedSize(c, s, p);
      if |src| <= 4 {
        ShortStops(c, s, src);
      }
      var qs := DecodedIsGenuine(c, next, src[size..]);
      ExplainedStep(c, s, p, src[size..], qs);
      assert src == src[..size] + src[size..];
      ps := [p] + qs;
  }
}
