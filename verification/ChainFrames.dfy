/**
 * The hash-chained frames of auth_chain_a and auth_chain_b: each frame's length
 * is masked, and its padding drawn, with the digest of the frame before it.
 * The digest, the key stream and the rule for the padding are uninterpreted.
 */
module ChainFrames {
  import opened Bits
  import opened Bytes
  import opened Ints
  import opened Powers
  import opened Seqs
  import opened SsrBase

  type md5 = b: bytes | |b| == 16 witness seq(16, _ => 0)

  /** A digest without its first two bytes, which are overwritten when padding is drawn. */
  type trunk = b: bytes | |b| == 14 witness seq(14, _ => 0)

  /** How much padding a frame has, and how much of it stands before the data. */
  datatype Spread = Spread(pad: nat, start: nat)
  type Layout = l: Spread | l.start <= l.pad witness Spread(0, 0)

  /** The layout of a frame is drawn from the last digest and the length of the data. */
  datatype Config = Config(
    layout: (trunk, nat) -> Layout,
    hmac: (bytes, bytes) -> md5,
    userKey: bytes,
    keyStream: nat -> byte)

  /** One end of one direction: the next frame's number, the last digest, and the key stream position. */
  datatype Side = Side(id: uint32, tail: trunk, pos: nat)

  function ByteXor(a: byte, b: byte): byte {
    Pow2Values();
    XorBound(a, b, 8);
    Xor(a, b)
  }

  /** XORKeyStream from a position on. */
  function Crypt(keyStream: nat -> byte, pos: nat, data: bytes): (r: bytes)
    ensures |r| == |data|
  {
    seq(|data|, i requires 0 <= i < |data| => ByteXor(data[i], keyStream(pos + i)))
  }

  lemma CryptTwice(keyStream: nat -> byte, pos: nat, data: bytes)
    ensures Crypt(keyStream, pos, Crypt(keyStream, pos, data)) == data
  {
    forall i | 0 <= i < |data|
      ensures Crypt(keyStream, pos, Crypt(keyStream, pos, data))[i] == data[i]
    {
      XorCancel(data[i], keyStream(pos + i));
    }
  }

  /** The length field, masked with two bytes of the last digest; masking again unmasks. */
  function Masked(n: uint16, tail: trunk): uint16 {
    Pow2Values();
    XorBound(n, U16LE(tail[12..]), 16);
    Xor(n, U16LE(tail[12..]))
  }

  lemma MaskedTwice(n: uint16, tail: trunk)
    ensures Masked(Masked(n, tail), tail) == n
  {
    XorCancel(n, U16LE(tail[12..]));
  }

  function MacKey(c: Config, id: uint32): bytes {
    c.userKey + PutU32LE(id)
  }

  /** Padding and data of a frame. */
  function Mixed(l: Layout, data: bytes, pad: bytes): bytes
    requires |pad| == l.pad
  {
    if data == [] then pad else pad[..l.start] + data + pad[l.start..]
  }

  /** Where the data of a frame starts, behind the length field. */
  function DataStart(l: Layout, dataLength: nat): nat {
    2 + if dataLength > 0 && l.pad > 0 then l.start else 0
  }

  ghost predicate Suits(c: Config, s: Side, p: Piece)
  {
    |p.data| < TWO_16 && |p.pad| == c.layout(s.tail, |p.data|).pad && |p.data| + |p.pad| < 4096
  }

  /** A frame without its last two bytes. */
  ghost function Front(c: Config, s: Side, p: Piece): bytes
    requires Suits(c, s, p)
  {
    PutU16LE(Masked(|p.data|, s.tail)) + Mixed(c.layout(s.tail, |p.data|), Crypt(c.keyStream, s.pos, p.data), p.pad)
  }

  ghost function Packed(c: Config, s: Side, p: Piece): bytes
    requires Suits(c, s, p)
  {
    Front(c, s, p) + c.hmac(MacKey(c, s.id), Front(c, s, p))[..2]
  }

  ghost function Next(c: Config, s: Side, p: Piece): Side
    requires Suits(c, s, p)
  {
    Side(NextId(s.id), c.hmac(MacKey(c, s.id), Front(c, s, p))[2..], s.pos + |p.data|)
  }

  // ---------------------------------------------------------------- decoding

  datatype End = More | LengthError | ChecksumError | Panicked

  datatype Outcome = Outcome(raw: bool, side: Side, out: bytes, rest: bytes, end: End)

  /** The data of a frame as it is passed on: the frame numbered 1 loses its first two bytes. */
  function Strip(id: uint32, data: bytes): bytes {
    if id == 1 && |data| >= 2 then data[2..] else data
  }

  /** What the front of the input holds: a frame of some size with its data, or a reason to stop. */
  datatype Look = Stop(end: End) | Take(size: nat, data: bytes, next: Side)

  ghost function LookAt(c: Config, s: Side, src: bytes): (l: Look)
    ensures l.Take? ==> 4 <= l.size <= |src|
  {
    if |src| <= 4 then Stop(More)
    else
      var dataLength := Masked(U16LE(src[..2]), s.tail);
      var l := c.layout(s.tail, dataLength);
      var length := dataLength + l.pad;
      if length >= 4096 then Stop(LengthError)
      else if 4 + length > |src| then Stop(More)
      else
        var hash := c.hmac(MacKey(c, s.id), src[..length + 2]);
        if hash[..2] != src[length + 2..length + 4] then Stop(ChecksumError)
        else if s.id == 1 && dataLength < 2 then Stop(Panicked)
        else
          var pos := DataStart(l, dataLength);
          var data := Crypt(c.keyStream, s.pos, src[pos..pos + dataLength]);
          Take(length + 4, data, Side(NextId(s.id), hash[2..], s.pos + dataLength))
  }

  ghost function Decode(c: Config, raw: bool, s: Side, src: bytes): Outcome
    decreases |src|
  {
    if raw then Outcome(true, s, src, [], More)
    else
      match LookAt(c, s, src)
      case Stop(More) => Outcome(false, s, [], src, More)
      case Stop(Panicked) => Outcome(false, s, [], src, Panicked)
      case Stop(e) => Outcome(true, s, [], [], e)
      case Take(size, data, next) =>
        var o := Decode(c, false, next, src[size..]);
        o.(out := Strip(s.id, data) + o.out)
  }

  /** A frame that is all there looks the same with more bytes behind it. */
  lemma LookAtMore(c: Config, s: Side, src: bytes, more: bytes)
    requires LookAt(c, s, src).Take?
    ensures LookAt(c, s, src + more) == LookAt(c, s, src)
    ensures (src + more)[LookAt(c, s, src).size..] == src[LookAt(c, s, src).size..] + more
  {
    hide MacKey, Crypt, Masked;
    var all := src + more;
    assert all[..2] == src[..2];
    var dataLength := Masked(U16LE(src[..2]), s.tail);
    var l := c.layout(s.tail, dataLength);
    var length := dataLength + l.pad;
    assert all[..length + 2] == src[..length + 2] && all[length + 2..length + 4] == src[length + 2..length + 4];
    var pos := DataStart(l, dataLength);
    assert all[pos..pos + dataLength] == src[pos..pos + dataLength];
  }

  /**
   * Stopping for lack of bytes and going on when more have come is the same
   * as having had them all: the fragmentation of the input has no effect.
   */
  lemma {:induction false} Resume(c: Config, raw: bool, s: Side, src: bytes, more: bytes)
    requires Decode(c, raw, s, src).end == More
    ensures var o := Decode(c, raw, s, src);
      && var o2 := Decode(c, o.raw, o.side, o.rest + more);
         Decode(c, raw, s, src + more) == o2.(out := o.out + o2.out)
    decreases |src|
  {
    hide LookAt;
    if raw {
      assert [] + more == more;
    } else {
      match LookAt(c, s, src)
      case Stop(_) =>
        assert [] + Decode(c, false, s, src + more).out == Decode(c, false, s, src + more).out;
      case Take(size, data, next) =>
        LookAtMore(c, s, src, more);
        Resume(c, false, next, src[size..], more);
        var o := Decode(c, false, next, src[size..]);
        Associate(Strip(s.id, data), o.out, Decode(c, o.raw, o.side, o.rest + more).out);
    }
  }

  // ---------------------------------------------------------------- honest input

  lemma MixedSize(l: Layout, data: bytes, pad: bytes)
    requires |pad| == l.pad
    ensures |Mixed(l, data, pad)| == |data| + |pad|
  {}

  lemma PackedSize(c: Config, s: Side, p: Piece)
    requires Suits(c, s, p)
    ensures |Front(c, s, p)| == 2 + |p.data| + |p.pad|
    ensures |Packed(c, s, p)| == 4 + |p.data| + |p.pad|
  {
    hide MacKey, Crypt, Masked, Mixed;
    MixedSize(c.layout(s.tail, |p.data|), Crypt(c.keyStream, s.pos, p.data), p.pad);
  }

  lemma Middle(a: bytes, b: bytes, c: bytes, d: bytes)
    ensures var all := a + (b + c + d);
      all[|a| + |b|..|a| + |b| + |c|] == c
  {}

  /** Where the mixed bytes hold the data. */
  lemma DataInside(l: Layout, data: bytes, pad: bytes, field: bytes)
    requires |pad| == l.pad && |field| == 2
    ensures var pos := DataStart(l, |data|);
      var all := field + Mixed(l, data, pad);
      pos + |data| <= |all| && all[pos..pos + |data|] == data
  {
    if |data| > 0 {
      Middle(field, pad[..l.start], data, pad[l.start..]);
    }
  }

  /** A frame with neither data nor padding has four bytes. */
  predicate Bare(p: Piece) {
    p.data == [] && p.pad == []
  }

  /**
   * A whole frame is recognised, and gives back its data and the state that
   * goes with the next one.  A bare frame waits for a fifth byte, and one
   * numbered 1 panics without the two bytes it loses.
   */
  lemma LookAtWhole(c: Config, s: Side, p: Piece, src: bytes)
    requires Suits(c, s, p) && Packed(c, s, p) <= src
    ensures LookAt(c, s, src) ==
            if |src| == 4 then Stop(More)
            else if s.id == 1 && |p.data| < 2 then Stop(Panicked)
            else Take(|Packed(c, s, p)|, p.data, Next(c, s, p))
    ensures |src| == 4 ==> Bare(p)
  {
    hide MacKey, Crypt, Masked, Mixed;
    var front, frame := Front(c, s, p), Packed(c, s, p);
    var length := |p.data| + |p.pad|;
    PackedSize(c, s, p);
    assert src[..|frame|] == frame;
    assert src[..length + 2] == frame[..length + 2] == front;
    assert src[length + 2..length + 4] == frame[length + 2..];
    var field := PutU16LE(Masked(|p.data|, s.tail));
    assert src[..2] == front[..2] == field;
    RoundTrip16(Masked(|p.data|, s.tail), []);
    assert field + [] == field;
    MaskedTwice(|p.data|, s.tail);
    var enc := Crypt(c.keyStream, s.pos, p.data);
    var l := c.layout(s.tail, |p.data|);
    DataInside(l, enc, p.pad, field);
    var pos := DataStart(l, |p.data|);
    assert src[pos..pos + |p.data|] == front[pos..pos + |p.data|] == enc;
    CryptTwice(c.keyStream, s.pos, p.data);
  }

  /** A cut frame waits for the rest of it. */
  lemma LookAtCut(c: Config, s: Side, p: Piece, src: bytes)
    requires Suits(c, s, p) && src < Packed(c, s, p)
    ensures LookAt(c, s, src) == Stop(More)
  {
    hide MacKey, Crypt, Masked, Mixed;
    PackedSize(c, s, p);
    if |src| > 4 {
      var frame, field := Packed(c, s, p), PutU16LE(Masked(|p.data|, s.tail));
      assert src == frame[..|src|];
      assert src[..2] == frame[..2] == field;
      RoundTrip16(Masked(|p.data|, s.tail), []);
      assert field + [] == field;
      MaskedTwice(|p.data|, s.tail);
    }
  }

  /** A run of pieces padded as the chain demands. */
  ghost predicate AllSuit(c: Config, s: Side, ps: seq<Piece>)
    decreases |ps|
  {
    ps == [] ||
    (Suits(c, s, ps[0]) && AllSuit(c, Next(c, s, ps[0]), ps[1..]))
  }

  /** A piece numbered 1 has the two bytes it loses. */
  predicate Readable(id: uint32, ps: seq<Piece>)
    decreases |ps|
  {
    ps == [] || ((id == 1 ==> |ps[0].data| >= 2) && Readable(NextId(id), ps[1..]))
  }

  ghost function Frames(c: Config, s: Side, ps: seq<Piece>): bytes
    requires AllSuit(c, s, ps)
    decreases |ps|
  {
    if ps == [] then [] else Packed(c, s, ps[0]) + Frames(c, Next(c, s, ps[0]), ps[1..])
  }

  /** The state that goes with the frame behind a run. */
  ghost function After(c: Config, s: Side, ps: seq<Piece>): (r: Side)
    requires AllSuit(c, s, ps)
    decreases |ps|
  {
    if ps == [] then s else After(c, Next(c, s, ps[0]), ps[1..])
  }

  /** The data of a run as it is passed on. */
  ghost function Passed(c: Config, s: Side, ps: seq<Piece>): bytes
    requires AllSuit(c, s, ps)
    decreases |ps|
  {
    if ps == [] then [] else Strip(s.id, ps[0].data) + Passed(c, Next(c, s, ps[0]), ps[1..])
  }

  lemma {:induction false} FramesSnoc(c: Config, s: Side, ps: seq<Piece>, p: Piece)
    requires AllSuit(c, s, ps) && Suits(c, After(c, s, ps), p)
    ensures AllSuit(c, s, ps + [p])
    ensures Frames(c, s, ps + [p]) == Frames(c, s, ps) + Packed(c, After(c, s, ps), p)
    ensures After(c, s, ps + [p]) == Next(c, After(c, s, ps), p)
    decreases |ps|
  {
    hide Suits, Packed, Next;
    PackedSize(c, After(c, s, ps), p);
    if ps == [] {
      assert ps + [p] == [p] && [p][1..] == [];
      assert Packed(c, s, p) + [] == [] + Packed(c, s, p);
    } else {
      assert (ps + [p])[1..] == ps[1..] + [p];
      var next := Next(c, s, ps[0]);
      FramesSnoc(c, next, ps[1..], p);
      Associate(Packed(c, s, ps[0]), Frames(c, next, ps[1..]), Packed(c, After(c, s, ps), p));
    }
  }

  /** Two runs, the second one in lockstep with what is behind the first, are one. */
  lemma {:induction false} JoinRuns(c: Config, s: Side, ps: seq<Piece>, qs: seq<Piece>)
    requires AllSuit(c, s, ps) && AllSuit(c, After(c, s, ps), qs)
    ensures AllSuit(c, s, ps + qs) && After(c, s, ps + qs) == After(c, After(c, s, ps), qs)
    ensures Frames(c, s, ps + qs) == Frames(c, s, ps) + Frames(c, After(c, s, ps), qs)
    decreases |ps|
  {
    hide Suits, Packed, Next;
    if ps == [] {
      assert ps + qs == qs;
    } else {
      assert (ps + qs)[1..] == ps[1..] + qs;
      var next := Next(c, s, ps[0]);
      JoinRuns(c, next, ps[1..], qs);
      Associate(Packed(c, s, ps[0]), Frames(c, next, ps[1..]), Frames(c, After(c, next, ps[1..]), qs));
    }
  }

  lemma NothingThere(c: Config, s: Side)
    ensures Decode(c, false, s, []) == Outcome(false, s, [], [], More)
  {}

  /**
   * Decoding src took the first n frames of a run whole, is in lockstep with
   * the rest, and kept what there is of the next.
   */
  ghost predicate Reached(c: Config, s: Side, ps: seq<Piece>, src: bytes, n: nat)
  {
    var o := Decode(c, false, s, src);
    && n <= |ps| && AllSuit(c, s, ps[..n]) && AllSuit(c, o.side, ps[n..]) && Readable(o.side.id, ps[n..])
    && o.end == More && !o.raw && o.side == After(c, s, ps[..n])
    && o.out == Passed(c, s, ps[..n])
    && src == Frames(c, s, ps[..n]) + o.rest
    && ShortOf(c, o.side, ps[n..], o.rest)
    && (n > 0 && Bare(ps[n - 1]) ==> o.rest != [])
  }

  /** Less than one frame of a run, or just a bare one. */
  ghost predicate ShortOf(c: Config, s: Side, ps: seq<Piece>, waiting: bytes)
    requires AllSuit(c, s, ps)
  {
    if ps == [] then waiting == []
    else waiting < Packed(c, s, ps[0]) || (Bare(ps[0]) && waiting == Packed(c, s, ps[0]))
  }

  lemma NextNumber(c: Config, s: Side, p: Piece)
    requires Suits(c, s, p)
    ensures Next(c, s, p).id == NextId(s.id)
  {}

  lemma DecodeFirst(c: Config, s: Side, p: Piece, rest: bytes)
    requires Suits(c, s, p) && (s.id == 1 ==> |p.data| >= 2) && (Bare(p) ==> rest != [])
    ensures var o := Decode(c, false, Next(c, s, p), rest);
      Decode(c, false, s, Packed(c, s, p) + rest) == o.(out := Strip(s.id, p.data) + o.out)
  {
    hide Suits, Packed, Next, LookAt, Strip;
    var src := Packed(c, s, p) + rest;
    PackedSize(c, s, p);
    LookAtWhole(c, s, p, src);
    assert src[|Packed(c, s, p)|..] == rest;
  }

  lemma RunFront(c: Config, s: Side, ps: seq<Piece>)
    requires AllSuit(c, s, ps) && ps != []
    ensures Frames(c, s, ps) == Packed(c, s, ps[0]) + Frames(c, Next(c, s, ps[0]), ps[1..])
    ensures Passed(c, s, ps) == Strip(s.id, ps[0].data) + Passed(c, Next(c, s, ps[0]), ps[1..])
    ensures After(c, s, ps) == After(c, Next(c, s, ps[0]), ps[1..])
  {
    hide Suits, Packed, Next, Strip;
  }

  lemma NoFrames(c: Config, s: Side, ps: seq<Piece>)
    requires ps == []
    ensures AllSuit(c, s, ps) && Frames(c, s, ps) == []
  {}

  lemma ReachedStep(c: Config, s: Side, ps: seq<Piece>, rest: bytes, n: nat)
    requires AllSuit(c, s, ps) && Readable(s.id, ps) && ps != []
    requires Reached(c, Next(c, s, ps[0]), ps[1..], rest, n) && (Bare(ps[0]) ==> rest != [])
    ensures Reached(c, s, ps, Packed(c, s, ps[0]) + rest, n + 1)
  {
    hide Suits, Packed, Next, Strip, Decode, Frames, After, Passed, ShortOf;
    var frame, next := Packed(c, s, ps[0]), Next(c, s, ps[0]);
    NextNumber(c, s, ps[0]);
    DecodeFirst(c, s, ps[0], rest);
    assert ps[..n + 1][1..] == ps[1..][..n] && ps[n + 1..] == ps[1..][n..];
    RunFront(c, s, ps[..n + 1]);
    if n == 0 {
      NoFrames(c, next, ps[1..][..n]);
      assert [] + Decode(c, false, next, rest).rest == rest;
    } else {
      assert ps[n] == ps[1..][n - 1];
    }
    Associate(frame, Frames(c, next, ps[1..][..n]), Decode(c, false, next, rest).rest);
  }

  lemma ReachedAtOnce(c: Config, s: Side, ps: seq<Piece>, src: bytes)
    requires AllSuit(c, s, ps) && Readable(s.id, ps) && ShortOf(c, s, ps, src)
    ensures Reached(c, s, ps, src, 0)
  {
    hide Suits, Packed, Next, LookAt;
    assert ps[..0] == [] && ps[0..] == ps;
    assert [] + src == src;
    if ps == [] {
      NothingThere(c, s);
    } else if src == Packed(c, s, ps[0]) {
      PackedSize(c, s, ps[0]);
      LookAtWhole(c, s, ps[0], src);
    } else {
      LookAtCut(c, s, ps[0], src);
    }
  }

  /**
   * Decoding any initial part of the frames of a peer in lockstep: the data of
   * the whole frames in order, then the cut one kept, in lockstep for the rest.
   */
  lemma {:induction false} DecodeHonest(c: Config, s: Side, ps: seq<Piece>, src: bytes) returns (n: nat)
    requires AllSuit(c, s, ps) && Readable(s.id, ps) && src <= Frames(c, s, ps)
    ensures Reached(c, s, ps, src, n)
    decreases |ps|
  {
    hide Suits, Packed, Next, Reached;
    if ps == [] {
      n := 0;
      ReachedAtOnce(c, s, ps, src);
    } else {
      var frame, next := Packed(c, s, ps[0]), Next(c, s, ps[0]);
      PrefixSplit(src, frame, Frames(c, next, ps[1..]));
      NextNumber(c, s, ps[0]);
      if frame <= src && !(Bare(ps[0]) && src == frame) {
        var rest := src[|frame|..];
        var m := DecodeHonest(c, next, ps[1..], rest);
        n := m + 1;
        ReachedStep(c, s, ps, rest, m);
        assert src == frame + rest;
      } else {
        n := 0;
        ReachedAtOnce(c, s, ps, src);
      }
    }
  }

  /** A run in two parts, the second one in lockstep with what is behind the first. */
  lemma {:induction false} SplitRun(c: Config, s: Side, ps: seq<Piece>, n: nat)
    requires AllSuit(c, s, ps) && n <= |ps|
    ensures AllSuit(c, s, ps[..n])
    ensures var t := After(c, s, ps[..n]);
      && AllSuit(c, t, ps[n..])
      && Frames(c, s, ps) == Frames(c, s, ps[..n]) + Frames(c, t, ps[n..])
      && Passed(c, s, ps) == Passed(c, s, ps[..n]) + Passed(c, t, ps[n..])
      && After(c, s, ps) == After(c, t, ps[n..])
      && (Readable(s.id, ps) ==> Readable(t.id, ps[n..]))
    decreases n
  {
    hide Suits, Packed, Next, Strip;
    if n == 0 {
      assert ps[..0] == [] && ps[0..] == ps;
    } else {
      hide Frames, Passed;
      var next := Next(c, s, ps[0]);
      assert ps[..n][1..] == ps[1..][..n - 1] && ps[1..][n - 1..] == ps[n..];
      SplitRun(c, next, ps[1..], n - 1);
      NextNumber(c, s, ps[0]);
      RunFront(c, s, ps);
      RunFront(c, s, ps[..n]);
      var t := After(c, s, ps[..n]);
      Associate(Packed(c, s, ps[0]), Frames(c, next, ps[1..][..n - 1]), Frames(c, t, ps[n..]));
      Associate(Strip(s.id, ps[0].data), Passed(c, next, ps[1..][..n - 1]), Passed(c, t, ps[n..]));
    }
  }

  /** A longer run of frames starts with a shorter one and the frame behind that. */
  lemma FramesGrow(c: Config, s: Side, ps: seq<Piece>, m: nat, n: nat)
    requires AllSuit(c, s, ps) && m < n <= |ps|
    ensures AllSuit(c, s, ps[..m]) && AllSuit(c, s, ps[..n]) && Suits(c, After(c, s, ps[..m]), ps[m])
    ensures var f := Packed(c, After(c, s, ps[..m]), ps[m]);
      && |f| == 4 + |ps[m].data| + |ps[m].pad| && Frames(c, s, ps[..m]) + f <= Frames(c, s, ps[..n])
      && (n == m + 1 ==> Frames(c, s, ps[..n]) == Frames(c, s, ps[..m]) + f)
  {
    hide Suits, Packed, Next, Frames, After, Passed;
    SplitRun(c, s, ps, n);
    SplitRun(c, s, ps[..n], m);
    assert ps[..n][..m] == ps[..m];
    var t, rest := After(c, s, ps[..m]), ps[..n][m..];
    assert rest[0] == ps[m];
    RunFront(c, t, rest);
    PackedSize(c, t, ps[m]);
    if n == m + 1 {
      NoFrames(c, Next(c, t, ps[m]), rest[1..]);
    }
    Associate(Frames(c, s, ps[..m]), Packed(c, t, ps[m]), Frames(c, Next(c, t, ps[m]), rest[1..]));
  }

  /**
   * Once all frames have come, all their data is out and the two ends are in
   * lockstep again, unless the last frame is bare: that one is not taken yet.
   */
  lemma DecodeAll(c: Config, s: Side, ps: seq<Piece>)
    requires AllSuit(c, s, ps) && Readable(s.id, ps)
    ensures Decode(c, false, s, Frames(c, s, ps)) == Outcome(false, After(c, s, ps), Passed(c, s, ps), [], More)
            <==> ps == [] || !Bare(ps[|ps| - 1])
  {
    hide Suits, Packed, Next, LookAt, Decode, Passed, After, ShortOf;
    var src := Frames(c, s, ps);
    var n := DecodeHonest(c, s, ps, src);
    SplitRun(c, s, ps, n);
    var t, rest := After(c, s, ps[..n]), Decode(c, false, s, src).rest;
    assert rest == src[|Frames(c, s, ps[..n])|..] == Frames(c, t, ps[n..]);
    NoneShort(c, t, ps[n..], rest);
    if n == |ps| {
      assert ps[..n] == ps;
    }
  }

  lemma NoneShort(c: Config, s: Side, ps: seq<Piece>, waiting: bytes)
    requires AllSuit(c, s, ps) && ShortOf(c, s, ps, waiting) && waiting == Frames(c, s, ps)
    ensures if ps == [] then waiting == [] else |ps| == 1 && Bare(ps[0]) && waiting != []
  {
    hide Suits, Packed, Next;
    if ps != [] {
      PackedSize(c, s, ps[0]);
      if |ps| > 1 {
        RunFront(c, Next(c, s, ps[0]), ps[1..]);
        PackedSize(c, Next(c, s, ps[0]), ps[1]);
      }
    }
  }

  /** Of a run numbered from 1, the first two bytes are not passed on, and all others are. */
  lemma PassedButTwo(c: Config, s: Side, ps: seq<Piece>)
    requires AllSuit(c, s, ps) && Readable(s.id, ps) && s.id == 1 && ps != [] && |ps| < TWO_32
    ensures |Data(ps)| >= 2 && Passed(c, s, ps) == Data(ps)[2..]
  {
    hide Suits, Next;
    NextNumber(c, s, ps[0]);
    PassedIsData(c, Next(c, s, ps[0]), ps[1..]);
    assert Data(ps)[2..] == ps[0].data[2..] + Data(ps[1..]);
  }

  /** Frames numbered 2 and up pass on their data unchanged. */
  lemma {:induction false} PassedIsData(c: Config, s: Side, ps: seq<Piece>)
    requires AllSuit(c, s, ps) && 2 <= s.id && s.id + |ps| <= TWO_32
    ensures Passed(c, s, ps) == Data(ps)
    decreases |ps|
  {
    hide Suits, Next;
    if ps != [] {
      NextNumber(c, s, ps[0]);
      if |ps| > 1 {
        PassedIsData(c, Next(c, s, ps[0]), ps[1..]);
      }
    }
  }
}
