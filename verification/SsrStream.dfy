/** The ShadowsocksR stream connection, and the auth_aes128 and auth_sha1_v4 codecs it drives. */
module SsrStream {
  import opened Bytes
  import opened Ints
  import opened Seqs
  import opened SsrBase
  import opened SsrFrames
  import opened Streams

  /** Every piece has the padding that was drawn for it. */
  ghost predicate Padded(kind: Kind, ps: seq<Piece>, full: nat, draws: nat -> Draw) {
    forall i :: 0 <= i < |ps| ==> |ps[i].pad| == PadLength(kind, |ps[i].data|, full, draws(i))
  }

  class Protocol {
    const kind: Kind
    const scheme: Scheme
    var packID: uint32
    var recvID: uint32
    var rawTrans: bool
    var hasSentHeader: bool

    constructor (kind: Kind, scheme: Scheme)
      ensures this.kind == kind && this.scheme == scheme && packID == recvID == 1 && !rawTrans && !hasSentHeader
    {
      this.kind, this.scheme := kind, scheme;
      packID, recvID, rawTrans, hasSentHeader := 1, 1, false, false;
    }

    function Dec(): Decoder
      reads this
    {
      Decoder(rawTrans, recvID)
    }

    method PackRandData(buf: Buffer, size: nat, d: Draw) returns (ghost pad: bytes)
      requires size < 8192
      modifies buf
      ensures |pad| == size && buf.data == old(buf.data) + RandData(scheme, pad)
    {
      pad := seq(size, i requires 0 <= i => d.fill(i));
      if size < 128 {
        buf.Write([size + 1]);
        buf.Write(seq(size, i requires 0 <= i => d.fill(i)));
        Associate(old(buf.data), [size + 1], pad);
        return;
      }
      buf.Write([255]);
      buf.Write(scheme.Put16(size + 3));
      buf.Write(seq(size, i requires 0 <= i => d.fill(i)));
      Associate(old(buf.data), [255], scheme.Put16(size + 3));
      Associate(old(buf.data), [255] + scheme.Put16(size + 3), pad);
    }

    /** One frame; its length and its checksums are computed from what is already in the buffer. */
    method PackData(buf: Buffer, data: bytes, fullDataLength: nat, d: Draw) returns (ghost p: Piece)
      requires d.Unit() && |data| <= 8100
      modifies this`packID, buf
      ensures p.data == data && Fits(p) && |p.pad| == PadLength(kind, |data|, fullDataLength, d)
      ensures buf.data == old(buf.data) + Packed(scheme, old(packID), p)
      ensures packID == NextId(old(packID))
    {
      hide PadLength, RandData;
      LengthInRange(kind, |data|, fullDataLength, d);
      var randDataLength := PadLength(kind, |data|, fullDataLength, d);
      var packedDataLength := 2 + 2 + 3 + randDataLength + |data| + 4;
      if randDataLength < 128 {
        packedDataLength := packedDataLength - 2;
      }
      var id := packID;
      packID := NextId(packID);
      ghost var before := buf.data;
      var len := scheme.Put16(packedDataLength);
      buf.Write(len);
      assert buf.data[|buf.data| - 2..] == len;
      buf.Write(scheme.head(id, buf.data[|buf.data| - 2..]));
      ghost var pad := PackRandData(buf, randDataLength, d);
      buf.Write(data);
      p := Piece(data, pad);
      FrontWritten(before, scheme, id, p);
      PackedSize(scheme, id, p);
      assert buf.data[|buf.data| - packedDataLength + 4..] == Front(scheme, id, p);
      buf.Write(scheme.tail(id, buf.data[|buf.data| - packedDataLength + 4..]));
      Associate(before, Front(scheme, id, p), scheme.tail(id, Front(scheme, id, p)));
    }

    lemma FrontWritten(before: bytes, s: Scheme, id: uint32, p: Piece)
      requires Fits(p)
      ensures var len := s.Put16(PackedLength(|p.data|, |p.pad|));
        before + len + s.head(id, len) + RandData(s, p.pad) + p.data == before + Front(s, id, p)
    {
      var len := s.Put16(PackedLength(|p.data|, |p.pad|));
      var h, r := s.head(id, len), RandData(s, p.pad);
      Associate(before, len, h);
      Associate(before, len + h, r);
      Associate(before, len + h + r, p.data);
    }

    /**
     * The loop over the frames in src.  When the data offset of an otherwise
     * sound frame lies beyond its end the slice expression panics.
     */
    method Decode(dst: Buffer, src: Buffer) returns (end: End)
      requires dst != src
      modifies this`rawTrans, this`recvID, dst, src
      ensures var o := SsrFrames.Decode(scheme, old(Dec()), old(src.data));
        end == o.end && Dec() == o.dec && dst.data == old(dst.data) + o.out && src.data == o.rest
    {
      hide SsrFrames.Decode, DataStart;
      DecodeIdle(scheme, Dec(), src.data);
      if rawTrans {
        dst.Write(src.data);
        src.Reset();
        return More;
      }
      ghost var o := SsrFrames.Decode(scheme, Dec(), src.data);
      ghost var out: bytes := [];
      while |src.data| > 4
        invariant !rawTrans
        invariant dst.data == old(dst.data) + out
        invariant o == (var r := SsrFrames.Decode(scheme, Dec(), src.data); r.(out := out + r.out))
        decreases |src.data|
      {
        ghost var here := src.data;
        var waiting := |src.data|;
        end := DecodeOne(dst, src);
        if end != More {
          return;
        }
        if |src.data| == waiting {
          break;
        }
        ghost var length := |here| - |src.data|;
        ghost var piece := here[DataStart(scheme, here[..length])..length - 4];
        Associate(old(dst.data), out, piece);
        Associate(out, piece, SsrFrames.Decode(scheme, Dec(), src.data).out);
        out := out + piece;
      }
      DecodeIdle(scheme, Dec(), src.data);
      end := More;
    }

    /** One pass of the loop: a frame is taken, or there is not enough, or decoding ends. */
    method DecodeOne(dst: Buffer, src: Buffer) returns (end: End)
      requires dst != src && !rawTrans && |src.data| > 4
      modifies this`rawTrans, this`recvID, dst, src
      ensures var o := SsrFrames.Decode(scheme, old(Dec()), old(src.data));
        if end != More then
          o == Outcome(Dec(), [], src.data, end) && dst.data == old(dst.data)
        else if src.data == old(src.data) then
          o == Outcome(Dec(), [], src.data, More) && !rawTrans && dst.data == old(dst.data)
        else
          var length := |old(src.data)| - |src.data|;
          && 7 <= length <= |old(src.data)| && !rawTrans
          && DataStart(scheme, old(src.data)[..length]) <= length - 4
          && var piece := old(src.data)[DataStart(scheme, old(src.data)[..length])..length - 4];
          && dst.data == old(dst.data) + piece
          && o == (var r := SsrFrames.Decode(scheme, Dec(), src.data); r.(out := piece + r.out))
      ensures |src.data| <= |old(src.data)|
    {
      hide SsrFrames.Decode;
      DecodeStep(scheme, Dec(), src.data);
      if scheme.head(recvID, src.data[..2]) != src.data[2..4] {
        src.Reset();
        return Failed(HeadError);
      }
      var length := scheme.Get16(src.data[..2]);
      if length >= 8192 || length < 7 {
        rawTrans := true;
        src.Reset();
        return Failed(LengthError);
      }
      if length > |src.data| {
        return More;
      }
      if scheme.tail(recvID, src.data[..length - 4]) != src.data[length - 4..length] {
        rawTrans := true;
        src.Reset();
        return Failed(TailError);
      }
      recvID := NextId(recvID);
      var pos: nat := src.data[4];
      if pos < 255 {
        pos := pos + 4;
      } else {
        pos := scheme.Get16(src.data[5..7]) + 4;
      }
      assert src.data[..length][5..7] == src.data[5..7];
      if pos > length - 4 {
        return Panicked;
      }
      dst.Write(src.data[pos..length - 4]);
      var _ := src.Next(length);
      end := More;
    }

    /** The first write also sends the authenticated head; auth_aes128 sends none for no data. */
    function Head(b: bytes, auth: bytes): bytes
      reads this
    {
      if hasSentHeader || (kind.Aes128? && b == []) then [] else auth
    }

    /** How much of the data the head takes with it. */
    function HeadLength(b: bytes, pick: nat): (n: nat)
      reads this
      ensures n <= |b|
    {
      if hasSentHeader then 0 else DataLength(b, pick)
    }

    /** Cuts data into frames of at most 8100 bytes; auth stands for what packAuthData writes. */
    method Encode(buf: Buffer, data: bytes, pick: nat, auth: bytes, draws: nat -> Draw) returns (ghost ps: seq<Piece>)
      requires forall i :: draws(i).Unit()
      modifies this`packID, this`hasSentHeader, buf
      ensures AllFit(ps) && hasSentHeader
      ensures Data(ps) == data[old(HeadLength(data, pick))..]
      ensures Parts(ps) == Cut(data[old(HeadLength(data, pick))..], 8100) && Padded(kind, ps, |data|, draws)
      ensures buf.data
           == old(buf.data) + old(Head(data[..HeadLength(data, pick)], auth)) + Frames(scheme, ps, old(packID))
      ensures packID == Advance(old(packID), |ps|)
    {
      hide Frames, Data, Advance, AllFit, Padded, Head, HeadLength, Cut, Parts;
      var b := SendHead(buf, data, pick, auth);
      ghost var all, before := b, buf.data;
      ps := [];
      var n := 0;
      EmptyRun(scheme, packID, before, kind, |data|, draws);
      assert [] + Cut(b, 8100) == Cut(b, 8100);
      while |b| > 8100
        invariant hasSentHeader && n == |ps| && AllFit(ps) && packID == Advance(old(packID), |ps|)
        invariant buf.data == before + Frames(scheme, ps, old(packID))
        invariant Data(ps) + b == all
        invariant Parts(ps) + Cut(b, 8100) == Cut(all, 8100) && Padded(kind, ps, |data|, draws)
        decreases |b|
      {
        assert b == b[..8100] + b[8100..];
        Associate(Data(ps), b[..8100], b[8100..]);
        CutMore(b, 8100);
        Associate(Parts(ps), [b[..8100]], Cut(b[8100..], 8100));
        ps := EncodeOne(buf, b[..8100], |data|, draws(n), ps, old(packID), before, draws);
        b := b[8100..];
        n := n + 1;
      }
      CutLast(b, 8100);
      if |b| > 0 {
        ps := EncodeOne(buf, b, |data|, draws(n), ps, old(packID), before, draws);
      }
    }

    method SendHead(buf: Buffer, data: bytes, pick: nat, auth: bytes) returns (b: bytes)
      modifies this`hasSentHeader, buf
      ensures hasSentHeader && b == data[old(HeadLength(data, pick))..]
      ensures buf.data == old(buf.data) + old(Head(data[..HeadLength(data, pick)], auth))
    {
      b := data;
      if !hasSentHeader {
        var dataLength := DataLength(b, pick);
        if kind.Sha1V4? || dataLength > 0 {
          buf.Write(auth);
        }
        b := b[dataLength..];
        hasSentHeader := true;
      }
    }

    method EncodeOne(buf: Buffer, b: bytes, full: nat, d: Draw, ghost ps: seq<Piece>, ghost id: uint32,
                     ghost before: bytes, ghost draws: nat -> Draw)
      returns (ghost qs: seq<Piece>)
      requires d.Unit() && 1 <= |b| <= 8100 && d == draws(|ps|)
      requires AllFit(ps) && packID == Advance(id, |ps|)
      requires buf.data == before + Frames(scheme, ps, id)
      modifies this`packID, buf
      ensures |qs| == |ps| + 1 && AllFit(qs) && packID == Advance(id, |qs|)
      ensures buf.data == before + Frames(scheme, qs, id)
      ensures Data(qs) == Data(ps) + b && Parts(qs) == Parts(ps) + [b]
      ensures Padded(kind, ps, full, draws) ==> Padded(kind, qs, full, draws)
    {
      hide Frames, Data, Advance, Packed, Fits, Parts, PadLength;
      ghost var p := PackData(buf, b, full, d);
      qs := ps + [p];
      FramesSnoc(scheme, ps, p, id);
      DataSnoc(ps, p);
      PartsSnoc(ps, p);
      AdvanceSnoc(id, |ps|);
      Associate(before, Frames(scheme, ps, id), Packed(scheme, Advance(id, |ps|), p));
    }
  }

  lemma EmptyRun(s: Scheme, id: uint32, before: bytes, kind: Kind, full: nat, draws: nat -> Draw)
    ensures AllFit([]) && Padded(kind, [], full, draws)
    ensures before + Frames(s, [], id) == before
    ensures Data([]) == [] && Parts([]) == [] && Advance(id, 0) == id
  {}

  /**
   * What has become of a wire: taken frames have been decoded into out, and
   * less than one frame is waiting in front of what is still to come.
   */
  ghost predicate InStep(s: Scheme, peer: seq<Piece>, wire: bytes, taken: nat, id: uint32,
                         waiting: bytes, rest: bytes, out: bytes)
  {
    && AllFit(peer) && wire <= Frames(s, peer, 1)
    && taken <= |peer| && id == Advance(1, taken) && out == Data(peer[..taken])
    && wire == Frames(s, peer[..taken], 1) + (waiting + rest)
    && (taken < |peer| ==> waiting < Packed(s, id, peer[taken]))
  }

  class StreamConn {
    const source: Source
    const proto: Protocol
    const decoded: Buffer
    const underDecoded: Buffer
    ghost const peer: seq<Piece>     // the frames the peer sends
    ghost const wire: bytes          // what arrives of them
    ghost var taken: nat             // how many have been decoded
    ghost var delivered: bytes       // everything returned by Read
    const conn: Conn
    ghost var head: bytes            // the authenticated head
    ghost var headData: bytes        // the data that went into it
    ghost var packed: seq<Piece>     // the frames made behind it
    ghost var written: bytes         // everything passed to Write

    /** A connection whose peer sends these frames; the wire may be cut anywhere. */
    constructor (kind: Kind, scheme: Scheme, wire: bytes, ghost ps: seq<Piece>)
      requires AllFit(ps) && wire <= Frames(scheme, ps, 1)
      ensures Valid() && Honest() && delivered == [] && peer == ps && this.wire == wire
      ensures Writing() && written == [] && !proto.hasSentHeader && proto.kind == kind && proto.scheme == scheme
    {
      hide Frames, Packed, Advance, Data, AllFit, InStep;
      source := new Source(wire);
      proto := new Protocol(kind, scheme);
      decoded := new Buffer();
      underDecoded := new Buffer();
      peer, this.wire, taken, delivered := ps, wire, 0, [];
      conn := new Conn();
      head, headData, packed, written := [], [], [], [];
      new;
      NothingSent(scheme);
      StartInStep(scheme, ps, wire);
      assert delivered + decoded.data == [] && headData + Data(packed) == [] && head + Frames(scheme, packed, 1) == [];
    }

    ghost predicate Valid() {
      decoded != underDecoded
    }

    /** The books of the writing side, apart from the connection. */
    ghost predicate Packing()
      reads this, proto
    {
      && AllFit(packed) && proto.packID == Advance(1, |packed|) && written == headData + Data(packed)
      && (!proto.hasSentHeader ==> head == [] && headData == [] && packed == [])
    }

    /** The head, and behind it all other data written, in frames numbered from 1. */
    ghost predicate Writing()
      reads this, proto, conn
    {
      Packing() && conn.sent == head + Frames(proto.scheme, packed, 1)
    }

    /** A write has failed: what has been sent is an initial part of that. */
    ghost predicate Broken()
      reads this, proto, conn
    {
      Packing() && conn.sent <= head + Frames(proto.scheme, packed, 1)
    }

    /** Write; auth stands for what packAuthData writes.  The reading side is not touched. */
    method Write(b: bytes, pick: nat, auth: bytes, draws: nat -> Draw) returns (n: nat, ok: bool)
      requires Writing() && forall i :: draws(i).Unit()
      modifies this`head, this`headData, this`packed, this`written, proto`packID, proto`hasSentHeader, conn
      ensures written == old(written) + b && n == if ok then |b| else 0
      ensures if ok then Writing() else Broken()
      ensures proto.hasSentHeader && old(packed) <= packed
      ensures old(proto.hasSentHeader) ==> head == old(head) && headData == old(headData)
      ensures !old(proto.hasSentHeader) ==>
                var size := DataLength(b, pick);
                headData == b[..size] && head == if proto.kind.Aes128? && headData == [] then [] else auth
      ensures old(Honest()) ==> Honest()
    {
      hide Frames, Data, Advance, AllFit, InStep, DataLength, Cut;
      var buf := new Buffer();
      ghost var size, start := proto.HeadLength(b, pick), proto.Head(b[..proto.HeadLength(b, pick)], auth);
      ghost var id := proto.packID;
      ghost var ps := proto.Encode(buf, b, pick, auth, draws);
      assert [] + start == start;
      JoinSent(proto.scheme, head, packed, start, ps, id);
      assert b == b[..size] + b[size..];
      JoinData(headData, Data(packed), b[..size], Data(ps));
      packed, written := packed + ps, written + b;
      head, headData := head + start, headData + b[..size];
      var m;
      m, ok := conn.Write(buf.data);
      PartSent(old(conn.sent), buf.data, m);
      n := if ok then |b| else 0;
    }

    /** Everything decoded so far has been delivered or waits in decoded. */
    ghost predicate Honest()
      reads this, source, proto, decoded, underDecoded
    {
      !proto.rawTrans
      && InStep(proto.scheme, peer, wire, taken, proto.recvID, underDecoded.data, source.rest, delivered + decoded.data)
    }

    /** The decoding of newly arrived bytes. */
    method Refill(got: bytes) returns (ok: bool)
      requires Valid() && decoded.data == []
      modifies this`taken, proto`rawTrans, proto`recvID, decoded, underDecoded
      ensures var s, under := proto.scheme, old(underDecoded.data);
        !old(proto.rawTrans)
        && InStep(s, peer, wire, old(taken), old(proto.recvID), under, got + source.rest, delivered) ==>
          ok && Honest() && taken >= old(taken)
      ensures var o := SsrFrames.Decode(proto.scheme, old(proto.Dec()), old(underDecoded.data) + got);
        ok == (o.end == More) && proto.Dec() == o.dec && decoded.data == o.out && underDecoded.data == o.rest
    {
      hide InStep, SsrFrames.Decode;
      ghost var under, id, raw := underDecoded.data, proto.recvID, proto.rawTrans;
      underDecoded.Write(got);
      var end := proto.Decode(decoded, underDecoded);
      if !raw && InStep(proto.scheme, peer, wire, taken, id, under, got + source.rest, delivered) {
        var n := MoveOn(proto.scheme, peer, wire, taken, id, under, got, source.rest, delivered);
        assert decoded.data == SsrFrames.Decode(proto.scheme, Decoder(false, id), under + got).out;
        taken := taken + n;
      }
      ok := end == More;
    }

    /**
     * Read.  What is decoded is handed out first; otherwise some bytes are
     * taken from the wire, whatever they are, and decoded.  From a peer's
     * frames it fails only at their end, when no decoded byte is left.
     */
    method Read(max: nat) returns (p: bytes, ok: bool)
      requires Valid()
      modifies this`taken, this`delivered, source, proto`rawTrans, proto`recvID, decoded, underDecoded
      ensures Valid() && (old(Writing()) ==> Writing())
      ensures |p| <= max && (ok ==> delivered == old(delivered) + p)
      ensures old(Honest()) ==>
                && Honest() && taken >= old(taken)
                && (!ok ==> source.rest == [] && decoded.data == [] && p == [] && delivered == old(delivered))
      ensures if old(decoded.data) != [] then
                && ok && old(decoded.data) == p + decoded.data && source.rest == old(source.rest)
                && proto.Dec() == old(proto.Dec()) && underDecoded.data == old(underDecoded.data)
              else if old(source.rest) == [] then !ok
              else
                && |source.rest| < |old(source.rest)|
                && var o := SsrFrames.Decode(proto.scheme, old(proto.Dec()),
                                             old(underDecoded.data) + Fetched(old(source.rest), source.rest));
                   && ok == (o.end == More) && p + decoded.data == o.out
                   && proto.Dec() == o.dec && underDecoded.data == o.rest
      ensures !ok ==> p == [] && delivered == old(delivered)
    {
      hide InStep, SsrFrames.Decode;
      if |decoded.data| > 0 {
        p := Take(max);
        return p, true;
      }
      var got;
      got, ok := source.Read(RELAY_BUFFER_SIZE);
      FetchedFront(got, source.rest);
      assert delivered + [] == delivered;
      if !ok {
        return [], false;
      }
      ok := Refill(got);
      if !ok {
        return [], false;
      }
      p := Take(max);
    }

    method Take(max: nat) returns (p: bytes)
      requires Valid()
      modifies this`delivered, decoded
      ensures |p| <= max && delivered == old(delivered) + p && old(decoded.data) == p + decoded.data
      ensures delivered + decoded.data == old(delivered + decoded.data)
    {
      p := decoded.Read(max);
      Associate(delivered, p, decoded.data);
      delivered := delivered + p;
    }

    /** At any time what was delivered is the front of the peer's data. */
    lemma InOrder()
      requires Honest()
      ensures delivered <= Data(peer)
    {
      hide Frames, Data, Packed;
      SplitRun(proto.scheme, peer, taken, 1);
      Associate(delivered, decoded.data, Data(peer[taken..]));
      assert Data(peer) == delivered + (decoded.data + Data(peer[taken..]));
    }

    lemma TakenInRange()
      requires Honest()
      ensures taken <= |peer| && AllFit(peer)
    {}

    /**
     * Once the wire has ended and nothing is left decoded, the data of every
     * frame that came whole has been delivered.
     */
    lemma NothingHeldBack(n: nat)
      requires Honest() && source.rest == [] && decoded.data == [] && n <= |peer|
      ensures AllFit(peer[..n])
      ensures Frames(proto.scheme, peer[..n], 1) <= wire <==> n <= taken
      ensures delivered == Data(peer[..taken])
    {
      hide Frames, Data, Packed, Advance;
      var s, id := proto.scheme, proto.recvID;
      assert delivered + [] == delivered && underDecoded.data + [] == underDecoded.data;
      SplitRun(s, peer[..taken], if n <= taken then n else taken, 1);
      if n <= taken {
        assert peer[..taken][..n] == peer[..n];
        PrefixOfSum(Frames(s, peer[..n], 1), Frames(s, peer[..taken][n..], Advance(1, n)), underDecoded.data);
      } else {
        SplitRun(s, peer[..n], taken, 1);
        assert peer[..n][..taken] == peer[..taken];
        TakeOne(s, peer[..n][taken..], n - taken, id);
        assert peer[..n][taken..][..n - taken] == peer[..n][taken..];
        TooLong(Frames(s, peer[..taken], 1), Frames(s, peer[..n][taken..], id), underDecoded.data);
      }
    }
  }

  lemma NothingSent(s: Scheme)
    ensures AllFit([]) && Frames(s, [], 1) == [] && Data([]) == [] && Advance(1, 0) == 1
  {}

  /** Frames behind frames, the first ones behind a head. */
  lemma JoinSent(s: Scheme, head: bytes, before: seq<Piece>, start: bytes, ps: seq<Piece>, id: uint32)
    requires AllFit(before) && AllFit(ps) && id == Advance(1, |before|) && (start == [] || before == [])
    ensures AllFit(before + ps) && Data(before + ps) == Data(before) + Data(ps) && (before == [] ==> Data(before) == [])
    ensures Advance(1, |before + ps|) == Advance(id, |ps|)
    ensures head + Frames(s, before, 1) + (start + Frames(s, ps, id)) == head + start + Frames(s, before + ps, 1)
  {
    hide Packed, Advance, Data, Frames;
    var all := before + ps;
    JoinFit(before, ps);
    SplitRun(s, all, |before|, 1);
    assert all[..|before|] == before && all[|before|..] == ps;
    AdvanceAdd(1, |before|, |ps|);
    NothingSent(s);
    var f, g := Frames(s, before, 1), Frames(s, ps, id);
    Associate(head, f, g);
    Associate(head, start, g);
    if start == [] {
      assert [] + g == g && head + [] == head;
    } else {
      assert [] + f == f && head + f == head && f + g == g;
    }
  }

  lemma JoinFit(ps: seq<Piece>, qs: seq<Piece>)
    requires AllFit(ps) && AllFit(qs)
    ensures AllFit(ps + qs)
  {}

  lemma JoinData(a: bytes, b: bytes, c: bytes, d: bytes)
    requires b == [] || c == []
    ensures a + b + (c + d) == a + c + (b + d)
  {
    if b == [] {
      assert a + b == a && b + d == d;
      Associate(a, c, d);
    } else {
      assert a + c == a && c + d == d;
      Associate(a, b, d);
    }
  }

  /**
   * From one end to the other.  A reader whose wire holds what a writer has
   * made, behind the head, up to anywhere, has the front of the data written
   * behind the head; all of it, when all frames have come and been read.
   */
  lemma ReaderGetsWritten(w: StreamConn, r: StreamConn)
    requires w.Packing() && r.Honest() && r.proto.scheme == w.proto.scheme && r.peer == w.packed
    ensures w.headData <= w.written && r.delivered <= w.written[|w.headData|..]
    ensures r.source.rest == [] && r.decoded.data == [] && r.wire == Frames(w.proto.scheme, w.packed, 1) ==>
              r.delivered == w.written[|w.headData|..]
  {
    hide Frames, Data, Advance, InStep;
    r.InOrder();
    assert w.written[|w.headData|..] == Data(w.packed);
    if r.source.rest == [] && r.decoded.data == [] {
      r.NothingHeldBack(|r.peer|);
      assert r.peer[..|r.peer|] == r.peer;
      r.TakenInRange();
    }
  }

  lemma StartInStep(s: Scheme, peer: seq<Piece>, wire: bytes)
    requires AllFit(peer) && wire <= Frames(s, peer, 1)
    ensures InStep(s, peer, wire, 0, 1, [], wire, [])
  {
    hide Packed;
    assert [] + wire == wire && peer[..0] == [];
    if peer != [] {
      PackedSize(s, 1, peer[0]);
    }
  }

  /** Decoding what waits together with newly arrived bytes takes every frame that has come whole. */
  lemma MoveOn(s: Scheme, peer: seq<Piece>, wire: bytes, taken: nat, id: uint32, under: bytes, got: bytes,
               rest: bytes, out: bytes)
    returns (n: nat)
    requires InStep(s, peer, wire, taken, id, under, got + rest, out)
    ensures var o := SsrFrames.Decode(s, Decoder(false, id), under + got);
      && o.end == More && !o.dec.rawTrans
      && InStep(s, peer, wire, taken + n, o.dec.recvID, o.rest, rest, out + o.out)
  {
    hide Frames, Data, Packed, Advance, SsrFrames.Decode;
    var ahead, src := peer[taken..], under + got;
    Associate(under, got, rest);
    SplitRun(s, peer, taken, 1);
    Cancel(Frames(s, peer[..taken], 1), src, rest, Frames(s, ahead, id));
    assert src <= src + rest;
    n := DecodeHonest(s, ahead, id, src);
    var both, o := peer[..taken + n], SsrFrames.Decode(s, Decoder(false, id), src);
    SplitRun(s, both, taken, 1);
    assert both[..taken] == peer[..taken] && both[taken..] == ahead[..n] && ahead[n..] == peer[taken + n..];
    AdvanceAdd(1, taken, n);
    Associate(Frames(s, ahead[..n], id), o.rest, rest);
    Associate(Frames(s, peer[..taken], 1), Frames(s, ahead[..n], id), o.rest + rest);
  }

  lemma {:induction false} AdvanceAdd(id: uint32, m: nat, n: nat)
    ensures Advance(id, m + n) == Advance(Advance(id, m), n)
    decreases m
  {
    hide NextId;
    if m > 0 {
      AdvanceAdd(NextId(id), m - 1, n);
    }
  }

  lemma {:induction false} SplitRun(s: Scheme, ps: seq<Piece>, n: nat, id: uint32)
    requires AllFit(ps) && n <= |ps|
    ensures AllFit(ps[..n]) && AllFit(ps[n..])
    ensures Frames(s, ps, id) == Frames(s, ps[..n], id) + Frames(s, ps[n..], Advance(id, n))
    ensures Data(ps) == Data(ps[..n]) + Data(ps[n..])
    decreases n
  {
    hide Packed, NextId, Fits;
    if n == 0 {
      assert ps[..0] == [] && ps[0..] == ps;
    } else {
      var k := n - 1;
      SplitRun(s, ps[1..], k, NextId(id));
      TakeOne(s, ps, n, id);
      assert ps[1..][k..] == ps[n..];
      Associate(Packed(s, id, ps[0]), Frames(s, ps[1..][..k], NextId(id)), Frames(s, ps[n..], Advance(id, n)));
      Associate(ps[0].data, Data(ps[1..][..k]), Data(ps[n..]));
    }
  }
}
