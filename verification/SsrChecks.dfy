/**
 * What the decoder of auth_aes128 and auth_sha1_v4 lets through, on any input:
 * only frames whose two checksums are right, and nothing once one is wrong.
 */
module SsrChecks {
  import opened Bytes
  import opened Ints
  import opened Seqs
  import opened SsrBase
  import opened SsrFrames

  /** Length field and both checksums are right, and the data starts within the frame. */
  ghost predicate Genuine(s: Scheme, id: uint32, f: bytes) {
    && 7 <= |f| < 8192 && s.Get16(f[..2]) == |f|
    && s.head(id, f[..2]) == f[2..4] && s.tail(id, f[..|f| - 4]) == f[|f| - 4..]
    && DataStart(s, f) <= |f| - 4
  }

  ghost predicate AllGenuine(s: Scheme, id: uint32, fs: seq<bytes>)
    decreases |fs|
  {
    fs == [] || (Genuine(s, id, fs[0]) && AllGenuine(s, NextId(id), fs[1..]))
  }

  /** The data the frames carry. */
  ghost function Carried(s: Scheme, id: uint32, fs: seq<bytes>): bytes
    requires AllGenuine(s, id, fs)
    decreases |fs|
  {
    if fs == [] then []
    else fs[0][DataStart(s, fs[0])..|fs[0]| - 4] + Carried(s, NextId(id), fs[1..])
  }

  /** The frames fs are the front of the input, and just what they carry has been passed on. */
  ghost predicate Explained(s: Scheme, id: uint32, src: bytes, fs: seq<bytes>) {
    var o := Decode(s, Decoder(false, id), src);
    && AllGenuine(s, id, fs) && Flatten(fs) <= src && o.out == Carried(s, id, fs)
    && (o.end == More ==> o.dec == Decoder(false, Advance(id, |fs|)) && src == Flatten(fs) + o.rest)
    && (o.end.Failed? ==> o.rest == [] && (o.dec.rawTrans <==> o.end.error != HeadError))
  }

  /** Is the first frame of the input there, and good? */
  ghost predicate Starts(s: Scheme, id: uint32, src: bytes) {
    |src| > 4 && 7 <= s.Get16(src[..2]) <= |src| && Genuine(s, id, src[..s.Get16(src[..2])])
  }

  lemma StartsStep(s: Scheme, id: uint32, src: bytes)
    requires Starts(s, id, src)
    ensures var n := s.Get16(src[..2]);
      var f, o := src[..n], Decode(s, Decoder(false, NextId(id)), src[n..]);
      Decode(s, Decoder(false, id), src) == o.(out := f[DataStart(s, f)..|f| - 4] + o.out)
  {
    hide Decode, Scheme.Get16, NextId, DataStart;
    var n := s.Get16(src[..2]);
    var f := src[..n];
    DecodeStep(s, Decoder(false, id), src);
    assert f[..2] == src[..2] && f[2..4] == src[2..4];
    assert f[..n - 4] == src[..n - 4] && f[n - 4..] == src[n - 4..n];
    var pos := DataStart(s, f);
    assert f[pos..n - 4] == src[pos..n - 4];
  }

  lemma NoneStarts(s: Scheme, id: uint32, src: bytes)
    requires !Starts(s, id, src)
    ensures var o := Decode(s, Decoder(false, id), src);
      && o.out == []
      && (o.end == More ==> o.dec == Decoder(false, id) && o.rest == src)
      && (o.end.Failed? ==> o.rest == [] && (o.dec.rawTrans <==> o.end.error != HeadError))
  {
    hide Decode, Scheme.Get16, NextId, DataStart;
    if |src| <= 4 {
      DecodeIdle(s, Decoder(false, id), src);
    } else {
      DecodeStep(s, Decoder(false, id), src);
      var n := s.Get16(src[..2]);
      if 7 <= n <= |src| {
        var f := src[..n];
        assert f[..2] == src[..2] && f[2..4] == src[2..4];
        assert f[..n - 4] == src[..n - 4] && f[n - 4..] == src[n - 4..n];
      }
    }
  }

  lemma ExplainedAtOnce(s: Scheme, id: uint32, src: bytes)
    requires !Starts(s, id, src)
    ensures Explained(s, id, src, [])
  {
    hide Decode, Starts;
    NoneStarts(s, id, src);
    assert [] + src == src;
  }

  lemma ExplainedStep(s: Scheme, id: uint32, src: bytes, n: nat, fs: seq<bytes>)
    requires Starts(s, id, src) && n == s.Get16(src[..2]) <= |src| && Explained(s, NextId(id), src[n..], fs)
    ensures Explained(s, id, src, [src[..n]] + fs)
  {
    hide Decode, Scheme.Get16, NextId, DataStart, Genuine;
    var all := [src[..n]] + fs;
    assert all[1..] == fs;
    StartsStep(s, id, src);
    assert src == src[..n] + src[n..];
    var gone := src[n..][|Flatten(fs)|..];
    assert src[n..] == Flatten(fs) + gone;
    Associate(src[..n], Flatten(fs), gone);
  }

  /** Only what both checksums vouch for is ever passed on, on any input. */
  lemma {:induction false} DecodedIsGenuine(s: Scheme, id: uint32, src: bytes) returns (fs: seq<bytes>)
    ensures Explained(s, id, src, fs)
    decreases |src|
  {
    hide Explained, Genuine, Scheme.Get16, NextId;
    if Starts(s, id, src) {
      var n := s.Get16(src[..2]);
      var rest := DecodedIsGenuine(s, NextId(id), src[n..]);
      ExplainedStep(s, id, src, n, rest);
      fs := [src[..n]] + rest;
    } else {
      ExplainedAtOnce(s, id, src);
      fs := [];
    }
  }

  // ---------------------------------------------------------------- changed frames

  /** The frames of a peer are decoded first, whatever comes behind them. */
  lemma {:induction false} HonestFirst(s: Scheme, ps: seq<Piece>, id: uint32, bad: bytes)
    requires AllFit(ps)
    ensures var o := Decode(s, Decoder(false, Advance(id, |ps|)), bad);
      Decode(s, Decoder(false, id), Frames(s, ps, id) + bad) == o.(out := Data(ps) + o.out)
    decreases |ps|
  {
    hide Decode, Packed, Fits, NextId;
    if ps == [] {
      var o := Decode(s, Decoder(false, id), bad);
      assert [] + bad == bad && [] + o.out == o.out;
    } else {
      var rest := Frames(s, ps[1..], NextId(id));
      DecodeWhole(s, ps[0], id, rest + bad);
      HonestFirst(s, ps[1..], NextId(id), bad);
      Associate(Packed(s, id, ps[0]), rest, bad);
      Associate(ps[0].data, Data(ps[1..]), Decode(s, Decoder(false, Advance(id, |ps|)), bad).out);
    }
  }

  /** A frame whose last four bytes are not its checksum. */
  ghost predicate WrongTail(s: Scheme, id: uint32, bad: bytes) {
    exists p: Piece, sum: bytes, rest: bytes ::
      Fits(p) && |sum| == 4 && sum != s.tail(id, Front(s, id, p)) && bad == Front(s, id, p) + (sum + rest)
  }

  /** A length field whose checksum does not fit, or that is out of range under a checksum that does. */
  ghost predicate WrongHead(s: Scheme, id: uint32, bad: bytes) {
    |bad| > 4 && bad[2..4] != s.head(id, bad[..2])
  }

  ghost predicate WrongLength(s: Scheme, id: uint32, bad: bytes) {
    |bad| > 4 && bad[2..4] == s.head(id, bad[..2]) && !(7 <= s.Get16(bad[..2]) < 8192)
  }

  lemma RefusedTail(s: Scheme, id: uint32, bad: bytes)
    requires WrongTail(s, id, bad)
    ensures Decode(s, Decoder(false, id), bad) == Outcome(Decoder(true, id), [], [], Failed(TailError))
  {
    hide Front, Decode, Scheme.Get16, NextId, Fits;
    var p: Piece, sum: bytes, rest: bytes :|
      Fits(p) && |sum| == 4 && sum != s.tail(id, Front(s, id, p)) && bad == Front(s, id, p) + (sum + rest);
    var front := Front(s, id, p);
    var frame := Packed(s, id, p);
    PackedSize(s, id, p);
    FitsLength(p);
    StartOfData(s, id, p, frame);
    Put16Get16(s, |frame|);
    assert frame[..2] == front[..2] == bad[..2] && frame[2..4] == front[2..4] == bad[2..4];
    assert bad[..|frame| - 4] == front && bad[|frame| - 4..|frame|] == sum;
    DecodeStep(s, Decoder(false, id), bad);
  }

  lemma FitsLength(p: Piece)
    requires Fits(p)
    ensures 7 <= PackedLength(|p.data|, |p.pad|) < 8192
  {}

  /**
   * Frames of a peer, then one that was changed: the data of the good ones is
   * passed on, everything from the bad one on is dropped, and decoding fails
   * with the error that says what was wrong.
   */
  lemma TamperedRun(s: Scheme, ps: seq<Piece>, id: uint32, bad: bytes)
    requires AllFit(ps)
    ensures var at, o := Advance(id, |ps|), Decode(s, Decoder(false, id), Frames(s, ps, id) + bad);
      && (WrongTail(s, at, bad) ==> o == Outcome(Decoder(true, at), Data(ps), [], Failed(TailError)))
      && (WrongHead(s, at, bad) ==> o == Outcome(Decoder(false, at), Data(ps), [], Failed(HeadError)))
      && (WrongLength(s, at, bad) ==> o == Outcome(Decoder(true, at), Data(ps), [], Failed(LengthError)))
  {
    hide Decode, Frames, Scheme.Get16, WrongTail;
    var at := Advance(id, |ps|);
    HonestFirst(s, ps, id, bad);
    assert Data(ps) + [] == Data(ps);
    if WrongTail(s, at, bad) {
      RefusedTail(s, at, bad);
    }
    if |bad| > 4 {
      DecodeStep(s, Decoder(false, at), bad);
    }
  }
}
