/**
 * The checksummed, randomly padded frames of auth_aes128 and auth_sha1_v4.
 * Both have the same shape; they differ in byte order, in the checksums, and
 * in the rule for the padding length.  Checksums are uninterpreted functions.
 */
module SsrFrames {
  import opened Bytes
  import opened Ints
  import opened Seqs
  import opened SsrBase

  type digest = b: bytes | 16 <= |b| witness seq(16, _ => 0)

  type sum2 = b: bytes | |b| == 2 witness [0, 0]
  type sum4 = b: bytes | |b| == 4 witness [0, 0, 0, 0]

  /** Byte order, the checksum of the length, and the checksum of the frame, both under the frame's number. */
  datatype Scheme = Scheme(bigEndian: bool, head: (uint32, bytes) -> sum2, tail: (uint32, bytes) -> sum4) {
    function Put16(n: uint16): (b: bytes)
      ensures |b| == 2
    {
      if bigEndian then PutU16BE(n) else PutU16LE(n)
    }

    function Get16(b: bytes): uint16
      requires |b| >= 2
    {
      if bigEndian then U16BE(b) else U16LE(b)
    }
  }

  /** auth_aes128: HMACs keyed with the user key and the frame's number. */
  function AesScheme(hmac: (bytes, bytes) -> digest, userKey: bytes): Scheme {
    Scheme(false,
           (id, b) => First2(hmac, userKey + PutU32LE(id), b),
           (id, b) => First4(hmac, userKey + PutU32LE(id), b))
  }

  function First2(hmac: (bytes, bytes) -> digest, key: bytes, b: bytes): sum2 {
    hmac(key, b)[..2]
  }

  function First4(hmac: (bytes, bytes) -> digest, key: bytes, b: bytes): sum4 {
    hmac(key, b)[..4]
  }

  /** auth_sha1_v4: CRC-32 of the length cut to 16 bits, Adler-32 of the frame, and no numbering. */
  function Sha1Scheme(crc32: bytes -> uint32, adler32: bytes -> uint32): Scheme {
    Scheme(true, (_, b) => PutU16LE(crc32(b) % TWO_16), (_, b) => PutU32LE(adler32(b)))
  }

  // ---------------------------------------------------------------- padding length

  /** The source's test for a positive slope fails for -0.3, so the distribution stays uniform. */
  function TrapezoidRandom(max: int, base: real): int {
    (base * max as real).Floor
  }

  datatype Kind = Aes128(overhead: int) | Sha1V4

  function PadLength(kind: Kind, dataLength: nat, fullDataLength: nat, d: Draw): int {
    match kind
    case Aes128(overhead) =>
      if fullDataLength >= 32 * 1024 - overhead then 0
      else
        var revLength := 1460 - dataLength - 9;
        if revLength == 0 then 0
        else if revLength < 0 then
          if revLength > -1460 then TrapezoidRandom(revLength + 1460, d.base) else Intn(32, d.pick)
        else if dataLength > 900 then Intn(revLength, d.pick)
        else TrapezoidRandom(revLength, d.base)
    case Sha1V4 =>
      if dataLength > 1200 then 0 else if dataLength > 400 then Intn(256, d.pick) else Intn(512, d.pick)
  }

  lemma TrapezoidBound(max: int, base: real)
    requires max > 0 && 0.0 <= base < 1.0
    ensures 0 <= TrapezoidRandom(max, base) < max
  {
    assert 0.0 <= base * max as real < max as real;
  }

  /** The bytes a frame takes. */
  function PackedLength(dataLength: nat, padLength: nat): nat {
    var n := 2 + 2 + 3 + padLength + dataLength + 4;
    if padLength < 128 then n - 2 else n
  }

  /** Every padding choice for a chunk of at most 8100 bytes gives a length the decoder accepts. */
  lemma LengthInRange(kind: Kind, dataLength: nat, fullDataLength: nat, d: Draw)
    requires d.Unit() && dataLength <= 8100
    ensures PadLength(kind, dataLength, fullDataLength, d) >= 0
    ensures 7 <= PackedLength(dataLength, PadLength(kind, dataLength, fullDataLength, d)) < 8192
  {
    var revLength := 1460 - dataLength - 9;
    if kind.Aes128? && revLength > 0 {
      TrapezoidBound(revLength, d.base);
    } else if kind.Aes128? && -1460 < revLength < 0 {
      TrapezoidBound(revLength + 1460, d.base);
    }
  }

  // ---------------------------------------------------------------- frames

  predicate Fits(p: Piece) {
    PackedLength(|p.data|, |p.pad|) < 8192
  }

  function RandData(s: Scheme, pad: bytes): bytes
    requires |pad| < 8192
  {
    if |pad| < 128 then [|pad| + 1] + pad else [255] + s.Put16(|pad| + 3) + pad
  }

  /** A frame without its last four bytes, and the whole frame. */
  function Front(s: Scheme, id: uint32, p: Piece): bytes
    requires Fits(p)
  {
    var len := s.Put16(PackedLength(|p.data|, |p.pad|));
    len + s.head(id, len) + RandData(s, p.pad) + p.data
  }

  function Packed(s: Scheme, id: uint32, p: Piece): bytes
    requires Fits(p)
  {
    Front(s, id, p) + s.tail(id, Front(s, id, p))
  }

  ghost predicate AllFit(ps: seq<Piece>) {
    forall i :: 0 <= i < |ps| ==> Fits(ps[i])
  }

  ghost function Frames(s: Scheme, ps: seq<Piece>, id: uint32): bytes
    requires AllFit(ps)
    decreases |ps|
  {
    if ps == [] then [] else Packed(s, id, ps[0]) + Frames(s, ps[1..], NextId(id))
  }

  function Advance(id: uint32, n: nat): uint32
    decreases n
  {
    if n == 0 then id else Advance(NextId(id), n - 1)
  }

  lemma {:induction false} AdvanceSnoc(id: uint32, n: nat)
    ensures Advance(id, n + 1) == NextId(Advance(id, n))
    decreases n
  {
    hide NextId;
    if n > 0 {
      AdvanceSnoc(NextId(id), n - 1);
    }
  }

  lemma {:induction false} FramesSnoc(s: Scheme, ps: seq<Piece>, p: Piece, id: uint32)
    requires AllFit(ps) && Fits(p)
    ensures AllFit(ps + [p])
    ensures Frames(s, ps + [p], id) == Frames(s, ps, id) + Packed(s, Advance(id, |ps|), p)
    decreases |ps|
  {
    hide Packed, NextId, Fits;
    if ps == [] {
      assert ps + [p] == [p] && [p][1..] == [];
    } else {
      assert (ps + [p])[1..] == ps[1..] + [p];
      FramesSnoc(s, ps[1..], p, NextId(id));
      Associate(Packed(s, id, ps[0]), Frames(s, ps[1..], NextId(id)), Packed(s, Advance(id, |ps|), p));
    }
  }

  // ---------------------------------------------------------------- decoding

  datatype Error = HeadError | LengthError | TailError

  /** How decoding stops: it needs more bytes, or fails, or hits a data offset beyond the frame, which panics. */
  datatype End = More | Failed(error: Error) | Panicked

  datatype Decoder = Decoder(rawTrans: bool, recvID: uint32)

  datatype Outcome = Outcome(dec: Decoder, out: bytes, rest: bytes, end: End)

  /** Where the data of a frame starts. */
  function DataStart(s: Scheme, frame: bytes): nat
    requires |frame| >= 7
  {
    if frame[4] < 255 then frame[4] + 4 else s.Get16(frame[5..7]) + 4
  }

  ghost function Decode(s: Scheme, dec: Decoder, src: bytes): Outcome
    decreases |src|
  {
    if dec.rawTrans then Outcome(dec, src, [], More)
    else if |src| <= 4 then Outcome(dec, [], src, More)
    else if s.head(dec.recvID, src[..2]) != src[2..4] then Outcome(dec, [], [], Failed(HeadError))
    else
      var length := s.Get16(src[..2]);
      if length >= 8192 || length < 7 then Outcome(dec.(rawTrans := true), [], [], Failed(LengthError))
      else if length > |src| then Outcome(dec, [], src, More)
      else if s.tail(dec.recvID, src[..length - 4]) != src[length - 4..length] then
        Outcome(dec.(rawTrans := true), [], [], Failed(TailError))
      else
        var dec' := dec.(recvID := NextId(dec.recvID));
        var pos := DataStart(s, src[..length]);
        if pos > length - 4 then Outcome(dec', [], src, Panicked)
        else
          var o := Decode(s, dec', src[length..]);
          o.(out := src[pos..length - 4] + o.out)
  }

  /** Decoding in raw mode, and of four bytes or less. */
  lemma DecodeIdle(s: Scheme, dec: Decoder, src: bytes)
    ensures dec.rawTrans ==> Decode(s, dec, src) == Outcome(dec, src, [], More)
    ensures !dec.rawTrans && |src| <= 4 ==> Decode(s, dec, src) == Outcome(dec, [], src, More)
  {}

  /** Decoding one frame further. */
  lemma DecodeStep(s: Scheme, dec: Decoder, src: bytes)
    requires !dec.rawTrans && |src| > 4
    ensures var length, next := s.Get16(src[..2]), dec.(recvID := NextId(dec.recvID));
      Decode(s, dec, src) ==
      if s.head(dec.recvID, src[..2]) != src[2..4] then Outcome(dec, [], [], Failed(HeadError))
      else if length >= 8192 || length < 7 then Outcome(dec.(rawTrans := true), [], [], Failed(LengthError))
      else if length > |src| then Outcome(dec, [], src, More)
      else if s.tail(dec.recvID, src[..length - 4]) != src[length - 4..length] then
        Outcome(dec.(rawTrans := true), [], [], Failed(TailError))
      else if DataStart(s, src[..length]) > length - 4 then Outcome(next, [], src, Panicked)
      else var o := Decode(s, next, src[length..]); o.(out := src[DataStart(s, src[..length])..length - 4] + o.out)
  {}

  /**
   * Stopping for lack of bytes and going on when more have come is the same as
   * having had them all: the fragmentation of any input has no effect.
   */
  lemma {:induction false} Resume(s: Scheme, dec: Decoder, src: bytes, more: bytes)
    requires Decode(s, dec, src).end == More
    ensures var o := Decode(s, dec, src);
      && var o2 := Decode(s, o.dec, o.rest + more);
         Decode(s, dec, src + more) == o2.(out := o.out + o2.out)
    decreases |src|
  {
    hide Decode, Scheme.Get16, NextId, DataStart;
    DecodeIdle(s, dec, src);
    if dec.rawTrans {
      DecodeIdle(s, dec, src + more);
      DecodeIdle(s, dec, [] + more);
      assert [] + more == more;
    } else if |src| > 4 {
      DecodeStep(s, dec, src);
      var length := s.Get16(src[..2]);
      if length <= |src| {
        ResumeBehind(s, dec, src, more);
      } else {
        assert [] + Decode(s, dec, src + more).out == Decode(s, dec, src + more).out;
      }
    } else {
      assert [] + Decode(s, dec, src + more).out == Decode(s, dec, src + more).out;
    }
  }

  /** A frame that is all there is taken in the same way with more bytes behind it. */
  lemma {:induction false} ResumeBehind(s: Scheme, dec: Decoder, src: bytes, more: bytes)
    requires Decode(s, dec, src).end == More && !dec.rawTrans && |src| > 4
    requires s.head(dec.recvID, src[..2]) == src[2..4] && 7 <= s.Get16(src[..2]) < 8192 && s.Get16(src[..2]) <= |src|
    ensures var o := Decode(s, dec, src);
      && var o2 := Decode(s, o.dec, o.rest + more);
         Decode(s, dec, src + more) == o2.(out := o.out + o2.out)
    decreases |src|, 0
  {
    hide Decode, Scheme.Get16, NextId, DataStart;
    var all, length, next := src + more, s.Get16(src[..2]), dec.(recvID := NextId(dec.recvID));
    DecodeStep(s, dec, src);
    DecodeStep(s, dec, all);
    assert all[..2] == src[..2] && all[2..4] == src[2..4];
    assert all[..length] == src[..length] && all[..length - 4] == src[..length - 4];
    assert all[length - 4..length] == src[length - 4..length];
    var pos := DataStart(s, src[..length]);
    if pos <= length - 4 {
      assert all[pos..length - 4] == src[pos..length - 4] && all[length..] == src[length..] + more;
      Resume(s, next, src[length..], more);
      var o := Decode(s, next, src[length..]);
      Associate(src[pos..length - 4], o.out, Decode(s, o.dec, o.rest + more).out);
    }
  }

  lemma RandDataLength(s: Scheme, pad: bytes)
    requires |pad| < 8192
    ensures |RandData(s, pad)| == if |pad| < 128 then |pad| + 1 else |pad| + 3
  {}

  lemma PackedSize(s: Scheme, id: uint32, p: Piece)
    requires Fits(p)
    ensures |Front(s, id, p)| == PackedLength(|p.data|, |p.pad|) - 4
    ensures |Packed(s, id, p)| == PackedLength(|p.data|, |p.pad|) >= 9
  {
    hide RandData;
    RandDataLength(s, p.pad);
  }

  lemma Put16Get16(s: Scheme, n: uint16)
    ensures s.Get16(s.Put16(n)) == n
  {
    RoundTrip16(n, []);
    assert PutU16BE(n) + [] == PutU16BE(n) && PutU16LE(n) + [] == PutU16LE(n);
  }

  /** The padding prefix leads to the data. */
  lemma StartOfData(s: Scheme, id: uint32, p: Piece, frame: bytes)
    requires Fits(p) && frame == Packed(s, id, p)
    ensures |frame| >= 9 && DataStart(s, frame) <= |frame| - 4
    ensures frame[DataStart(s, frame)..|frame| - 4] == p.data
    ensures frame[..2] == s.Put16(|frame|) && frame[2..4] == s.head(id, frame[..2])
    ensures frame[..|frame| - 4] == Front(s, id, p)
    ensures frame[|frame| - 4..] == s.tail(id, Front(s, id, p))
  {
    PackedSize(s, id, p);
    var len := s.Put16(PackedLength(|p.data|, |p.pad|));
    var front := Front(s, id, p);
    var r := RandData(s, p.pad);
    assert frame == len + s.head(id, len) + r + p.data + s.tail(id, front);
    assert frame[4] == r[0];
    if |p.pad| >= 128 {
      assert frame[5..7] == s.Put16(|p.pad| + 3);
      Put16Get16(s, |p.pad| + 3);
    }
  }

  /** Decoding a whole frame yields its data and goes on behind it. */
  lemma DecodeWhole(s: Scheme, p: Piece, id: uint32, rest: bytes)
    requires Fits(p)
    ensures var o := Decode(s, Decoder(false, NextId(id)), rest);
      Decode(s, Decoder(false, id), Packed(s, id, p) + rest) == o.(out := p.data + o.out)
  {
    hide Packed, Front;
    var frame := Packed(s, id, p);
    var src := frame + rest;
    PackedSize(s, id, p);
    StartOfData(s, id, p, frame);
    Put16Get16(s, |frame|);
    assert src[..2] == frame[..2] && src[2..4] == frame[2..4];
    assert src[..|frame|] == frame && src[|frame|..] == rest;
    assert src[..|frame| - 4] == frame[..|frame| - 4] && src[|frame| - 4..|frame|] == frame[|frame| - 4..];
    assert src[DataStart(s, frame)..|frame| - 4] == frame[DataStart(s, frame)..|frame| - 4];
  }

  /** Decoding a cut frame waits for the rest of it. */
  lemma DecodeCut(s: Scheme, p: Piece, id: uint32, src: bytes)
    requires Fits(p) && src < Packed(s, id, p)
    ensures Decode(s, Decoder(false, id), src) == Outcome(Decoder(false, id), [], src, More)
  {
    hide Packed, Front;
    var frame := Packed(s, id, p);
    PackedSize(s, id, p);
    StartOfData(s, id, p, frame);
    Put16Get16(s, |frame|);
    if |src| > 4 {
      assert src == frame[..|src|];
      assert src[..2] == frame[..2] && src[2..4] == frame[2..4];
    }
  }

  /** Decoding src took the first n frames of a run whole, and kept what there is of the next. */
  ghost predicate Decoded(s: Scheme, ps: seq<Piece>, id: uint32, src: bytes, n: nat)
    requires AllFit(ps)
  {
    var o := Decode(s, Decoder(false, id), src);
    && n <= |ps|
    && o.end == More && o.dec == Decoder(false, Advance(id, n))
    && o.out == Data(ps[..n])
    && o.rest <= Frames(s, ps[n..], Advance(id, n))
    && (ps[n..] == [] || o.rest < Packed(s, Advance(id, n), ps[n]))
    && src == Frames(s, ps[..n], id) + o.rest
  }

  lemma DecodedStep(s: Scheme, ps: seq<Piece>, id: uint32, rest: bytes, m: nat)
    requires AllFit(ps) && ps != [] && Decoded(s, ps[1..], NextId(id), rest, m)
    ensures Decoded(s, ps, id, Packed(s, id, ps[0]) + rest, m + 1)
  {
    hide Packed, Decode, NextId, Frames, Data, Fits;
    DecodeWhole(s, ps[0], id, rest);
    TakeOne(s, ps, m + 1, id);
    assert ps[1..][m..] == ps[m + 1..];
    var o := Decode(s, Decoder(false, NextId(id)), rest);
    Associate(Packed(s, id, ps[0]), Frames(s, ps[1..][..m], NextId(id)), o.rest);
  }

  lemma DecodedNone(s: Scheme, ps: seq<Piece>, id: uint32, src: bytes)
    requires AllFit(ps) && src <= Frames(s, ps, id)
    requires if ps == [] then src == [] else src < Packed(s, id, ps[0])
    ensures Decoded(s, ps, id, src, 0)
  {
    hide Packed, Decode, NextId;
    assert ps[0..] == ps && ps[..0] == [];
    assert [] + src == src;
    if ps == [] {
      DecodeNothing(s, id);
    } else {
      DecodeCut(s, ps[0], id, src);
    }
  }

  /**
   * Decoding any initial part of a run of frames: the data of the whole frames
   * in order, the cut one kept, and the frame number moved on by their count.
   */
  lemma {:induction false} DecodeHonest(s: Scheme, ps: seq<Piece>, id: uint32, src: bytes) returns (n: nat)
    requires AllFit(ps) && src <= Frames(s, ps, id)
    ensures Decoded(s, ps, id, src, n)
    decreases |ps|
  {
    hide Packed, Decoded, NextId, Data;
    if ps == [] {
      n := 0;
      DecodedNone(s, ps, id, src);
    } else {
      var frame := Packed(s, id, ps[0]);
      PrefixSplit(src, frame, Frames(s, ps[1..], NextId(id)));
      if frame <= src {
        var rest := src[|frame|..];
        var m := DecodeHonest(s, ps[1..], NextId(id), rest);
        n := m + 1;
        DecodedStep(s, ps, id, rest, m);
        assert src == frame + rest;
      } else {
        n := 0;
        DecodedNone(s, ps, id, src);
      }
    }
  }

  lemma TakeOne(s: Scheme, ps: seq<Piece>, n: nat, id: uint32)
    requires AllFit(ps) && 0 < n <= |ps|
    ensures AllFit(ps[..n]) && AllFit(ps[1..][..n - 1])
    ensures Frames(s, ps[..n], id) == Packed(s, id, ps[0]) + Frames(s, ps[1..][..n - 1], NextId(id))
    ensures Data(ps[..n]) == ps[0].data + Data(ps[1..][..n - 1])
  {
    hide Packed;
    assert ps[..n][1..] == ps[1..][..n - 1];
  }

  lemma DecodeNothing(s: Scheme, id: uint32)
    ensures Decode(s, Decoder(false, id), []) == Outcome(Decoder(false, id), [], [], More)
  {}

  /** Once all frames have come, all their data is out and the two ends agree on the number of the next. */
  lemma {:induction false} DecodeAll(s: Scheme, ps: seq<Piece>, id: uint32)
    requires AllFit(ps)
    ensures Decode(s, Decoder(false, id), Frames(s, ps, id))
         == Outcome(Decoder(false, Advance(id, |ps|)), Data(ps), [], More)
    decreases |ps|
  {
    hide Packed, Decode, NextId, Fits;
    if ps == [] {
      DecodeNothing(s, id);
    } else {
      DecodeWhole(s, ps[0], id, Frames(s, ps[1..], NextId(id)));
      DecodeAll(s, ps[1..], NextId(id));
    }
  }

  // ---------------------------------------------------------------- the two protocols

  /** The checksums of auth_sha1_v4 do not depend on the number, so neither does what is decoded. */
  lemma {:induction false} Sha1IgnoresNumbers(crc32: bytes -> uint32, adler32: bytes -> uint32, dec: Decoder,
                                              id: uint32, src: bytes)
    ensures var o := Decode(Sha1Scheme(crc32, adler32), dec, src);
      Decode(Sha1Scheme(crc32, adler32), dec.(recvID := id), src)
      == o.(dec := Decode(Sha1Scheme(crc32, adler32), dec.(recvID := id), src).dec)
    decreases |src|
  {
    hide Decode, Scheme.Get16, NextId, DataStart;
    var s, other := Sha1Scheme(crc32, adler32), dec.(recvID := id);
    if dec.rawTrans || |src| <= 4 {
      DecodeIdle(s, dec, src);
      DecodeIdle(s, other, src);
    } else {
      DecodeStep(s, dec, src);
      DecodeStep(s, other, src);
      var length := s.Get16(src[..2]);
      if 7 <= length <= |src| {
        Sha1IgnoresNumbers(crc32, adler32, dec.(recvID := NextId(dec.recvID)), NextId(id), src[length..]);
      }
    }
  }

  /** auth_sha1_v4 reads its frames back, whatever the numbers kept at the two ends. */
  lemma Sha1DecodesAll(crc32: bytes -> uint32, adler32: bytes -> uint32, ps: seq<Piece>, packID: uint32, recvID: uint32)
    requires AllFit(ps)
    ensures var s := Sha1Scheme(crc32, adler32);
      var o := Decode(s, Decoder(false, recvID), Frames(s, ps, packID));
      o.out == Data(ps) && o.rest == [] && o.end == More && !o.dec.rawTrans
  {
    hide Decode, Frames, Sha1Scheme;
    var s := Sha1Scheme(crc32, adler32);
    DecodeAll(s, ps, packID);
    Sha1IgnoresNumbers(crc32, adler32, Decoder(false, packID), recvID, Frames(s, ps, packID));
    StaysFramed(s, Decoder(false, recvID), Frames(s, ps, packID));
  }

  /** Only an error makes a decoder pass on bytes as they are. */
  lemma {:induction false} StaysFramed(s: Scheme, dec: Decoder, src: bytes)
    requires !dec.rawTrans && Decode(s, dec, src).end == More
    ensures !Decode(s, dec, src).dec.rawTrans
    decreases |src|
  {
    hide Decode, Scheme.Get16, NextId, DataStart;
    if |src| <= 4 {
      DecodeIdle(s, dec, src);
    } else {
      DecodeStep(s, dec, src);
      var length := s.Get16(src[..2]);
      if 7 <= length <= |src| && DataStart(s, src[..length]) <= length - 4
         && s.tail(dec.recvID, src[..length - 4]) == src[length - 4..length]
         && s.head(dec.recvID, src[..2]) == src[2..4] {
        StaysFramed(s, dec.(recvID := NextId(dec.recvID)), src[length..]);
      }
    }
  }

  /** auth_aes128 reads its frames back when the two ends share the key, and number them alike. */
  lemma AesDecodesAll(hmac: (bytes, bytes) -> digest, userKey: bytes, ps: seq<Piece>, id: uint32)
    requires AllFit(ps)
    ensures Decode(AesScheme(hmac, userKey), Decoder(false, id), Frames(AesScheme(hmac, userKey), ps, id))
         == Outcome(Decoder(false, Advance(id, |ps|)), Data(ps), [], More)
  {
    hide Decode, Frames, AesScheme;
    DecodeAll(AesScheme(hmac, userKey), ps, id);
  }

  // ---------------------------------------------------------------- how long the padding may be

  /** The lengths padding may have are those below this. */
  function PadBound(kind: Kind, dataLength: nat, fullDataLength: nat): nat {
    match kind
    case Aes128(overhead) =>
      if fullDataLength >= 32768 - overhead || dataLength == 1451 then 1
      else if dataLength < 1451 then 1451 - dataLength
      else if dataLength < 2911 then 2911 - dataLength
      else 32
    case Sha1V4 => if dataLength <= 400 then 512 else if dataLength <= 1200 then 256 else 1
  }

  lemma TrapezoidReach(max: int, v: int)
    requires 0 <= v < max
    ensures 0.0 <= v as real / max as real < 1.0 && TrapezoidRandom(max, v as real / max as real) == v
  {
    assert v as real / max as real * max as real == v as real;
  }

  lemma PadWithin(kind: Kind, dataLength: nat, fullDataLength: nat, d: Draw)
    requires d.Unit()
    ensures 0 <= PadLength(kind, dataLength, fullDataLength, d) < PadBound(kind, dataLength, fullDataLength)
  {
    hide TrapezoidRandom;
    if dataLength < 1451 {
      TrapezoidBound(1451 - dataLength, d.base);
    } else if 1451 < dataLength < 2911 {
      TrapezoidBound(2911 - dataLength, d.base);
    }
  }

  lemma PadDrawn(kind: Kind, dataLength: nat, fullDataLength: nat, v: nat, d: Draw)
    requires var max := PadBound(kind, dataLength, fullDataLength);
      v < max && d.pick == v && d.Unit() && TrapezoidRandom(max, d.base) == v
    ensures PadLength(kind, dataLength, fullDataLength, d) == v
  {
    hide TrapezoidRandom, Intn;
    IntnSmall(PadBound(kind, dataLength, fullDataLength), v);
  }

  lemma IntnSmall(n: nat, pick: nat)
    requires pick < n
    ensures Intn(n, pick) == pick
  {}

  /** Every length below the bound is drawn, and no other. */
  lemma PadReach(kind: Kind, dataLength: nat, fullDataLength: nat, v: int)
    ensures (exists d: Draw :: d.Unit() && PadLength(kind, dataLength, fullDataLength, d) == v) <==>
              0 <= v < PadBound(kind, dataLength, fullDataLength)
  {
    hide TrapezoidRandom, PadLength, PadBound;
    var max := PadBound(kind, dataLength, fullDataLength);
    if d: Draw :| d.Unit() && PadLength(kind, dataLength, fullDataLength, d) == v {
      PadWithin(kind, dataLength, fullDataLength, d);
    }
    if 0 <= v < max {
      TrapezoidReach(max, v);
      var d := Draw(v as real / max as real, v, _ => 0);
      PadDrawn(kind, dataLength, fullDataLength, v, d);
      assert d.Unit() && PadLength(kind, dataLength, fullDataLength, d) == v;
    }
  }
}
