/** The auth_chain codecs: each direction owns a digest array, a generator, a frame number and a key stream position. */
module ChainStream {
  import opened Bytes
  import opened ChainFrames
  import opened ChainPadding
  import opened Ints
  import opened Seqs
  import opened SsrBase
  import opened Streams
  import opened XorShift

  /** The layout that the rule of a protocol gives. */
  ghost function LayoutOf(rule: Rule, tail: trunk, length: nat): Layout
    requires WellFormed(rule)
  {
    PaddingBounds(rule, tail, length);
    var p := Padding(rule, tail, length);
    Spread(p.n, StartPos(p.n, p.gen))
  }

  ghost predicate Follows(config: Config, rule: Rule)
    requires WellFormed(rule)
  {
    forall t: trunk, n: nat :: config.layout(t, n) == LayoutOf(rule, t, n)
  }

  /** Every layout a rule gives keeps data of at most 2800 bytes within a frame. */
  lemma LayoutFits(config: Config, rule: Rule, tail: trunk, length: nat)
    requires WellFormed(rule) && Follows(config, rule)
    ensures length <= 2800 ==> length + config.layout(tail, length).pad < 4096
  {
    PaddingBounds(rule, tail, length);
  }

  class AuthChain {
    const config: Config
    const rule: Rule
    var lastClientHash: array<byte>
    var lastServerHash: array<byte>
    const randomClient: XorShift128Plus
    const randomServer: XorShift128Plus
    var packID: uint32
    var recvID: uint32
    var encrypted: nat      // how far the sending key stream has been used
    var decrypted: nat
    var rawTrans: bool
    var hasSentHeader: bool

    /** A codec with the digests and the key stream that the authenticated head sets up. */
    constructor (config: Config, rule: Rule, clientHash: md5, serverHash: md5)
      requires WellFormed(rule) && Follows(config, rule)
      ensures Valid() && this.config == config && !rawTrans && !hasSentHeader
      ensures Sending() == Side(1, clientHash[2..], 0) && Receiving() == Side(1, serverHash[2..], 0)
      ensures fresh(lastClientHash) && fresh(lastServerHash) && fresh(randomClient) && fresh(randomServer)
    {
      this.config, this.rule := config, rule;
      var c := new byte[16](i requires 0 <= i < 16 => clientHash[i]);
      var s := new byte[16](i requires 0 <= i < 16 => serverHash[i]);
      lastClientHash, lastServerHash := c, s;
      randomClient := new XorShift128Plus();
      randomServer := new XorShift128Plus();
      packID, recvID, encrypted, decrypted, rawTrans, hasSentHeader := 1, 1, 0, 0, false, false;
      new;
      assert c[2..] == clientHash[2..] && s[2..] == serverHash[2..];
    }

    ghost predicate Valid()
      reads this
    {
      && WellFormed(rule) && Follows(config, rule) && lastClientHash.Length == lastServerHash.Length == 16
      && lastClientHash != lastServerHash && randomClient != randomServer
    }

    ghost function Sending(): Side
      requires Valid()
      reads this, lastClientHash
    {
      Side(packID, lastClientHash[2..], encrypted)
    }

    ghost function Receiving(): Side
      requires Valid()
      reads this, lastServerHash
    {
      Side(recvID, lastServerHash[2..], decrypted)
    }

    /** n bytes of padding, the first `start` of them before the data. */
    method PutAround(buf: Buffer, data: bytes, n: nat, start: nat, fill: nat -> byte)
      requires start <= n
      modifies buf
      ensures var pad: bytes := seq(n, i requires 0 <= i < n => fill(i));
        buf.data == old(buf.data) + (pad[..start] + data + pad[start..])
    {
      var front: bytes := seq(start, i requires 0 <= i < start => fill(i));
      var back: bytes := seq(n - start, i requires 0 <= i < n - start => fill(start + i));
      ghost var pad: bytes := seq(n, i requires 0 <= i < n => fill(i));
      assert front == pad[..start] && back == pad[start..];
      buf.Write(front);
      buf.Write(data);
      buf.Write(back);
      Associate(old(buf.data), front, data);
      Associate(old(buf.data), front + data, back);
    }

    /** Writes the data with its padding around it; the padding length is drawn from the digest. */
    method PutMixed(buf: Buffer, data: bytes, fill: nat -> byte) returns (ghost pad: bytes)
      requires Valid()
      modifies lastClientHash, randomClient, buf
      ensures var l := config.layout(old(lastClientHash[2..]), |data|);
        |pad| == l.pad && buf.data == old(buf.data) + Mixed(l, data, pad)
      ensures lastClientHash[2..] == old(lastClientHash[2..])
    {
      hide Padding, WellFormed;
      ghost var l := LayoutOf(rule, lastClientHash[2..], |data|);
      var n := GetRandLength(rule, |data|, lastClientHash, randomClient);
      pad := seq(n, i requires 0 <= i < n => fill(i));
      if |data| == 0 {
        buf.Write(seq(n, i requires 0 <= i < n => fill(i)));
        return;
      }
      if n > 0 {
        var r := randomClient.Next();
        var start := r % 8589934609 % n;
        PutAround(buf, data, n, start, fill);
        return;
      }
      buf.Write(data);
      assert pad[..0] + data + pad[0..] == data;
    }

    method PackData(buf: Buffer, data: bytes, fill: nat -> byte) returns (ghost p: Piece)
      requires Valid() && |data| <= 2800
      modifies this`lastClientHash, this`packID, this`encrypted, lastClientHash, randomClient, buf
      ensures Valid() && fresh(lastClientHash)
      ensures p.data == data && Suits(config, old(Sending()), p)
      ensures buf.data == old(buf.data) + Packed(config, old(Sending()), p)
      ensures Sending() == Next(config, old(Sending()), p)
    {
      hide WellFormed, Mixed, Follows;
      ghost var side := Sending();
      LayoutFits(config, rule, side.tail, |data|);
      var enc := Crypt(config.keyStream, encrypted, data);
      encrypted := encrypted + |data|;
      var macKey := config.userKey + PutU32LE(packID);
      packID := NextId(packID);
      assert lastClientHash[14..16] == lastClientHash[2..][12..];
      var length := Masked(|data|, lastClientHash[2..]);
      var originalLength := |buf.data|;
      ghost var before := buf.data;
      buf.Write(PutU16LE(length));
      ghost var pad := PutMixed(buf, enc, fill);
      p := Piece(data, pad);
      Associate(before, PutU16LE(length), Mixed(config.layout(side.tail, |data|), enc, pad));
      assert buf.data == before + Front(config, side, p);
      assert buf.data[originalLength..] == Front(config, side, p);
      var hash := config.hmac(macKey, buf.data[originalLength..]);
      lastClientHash := new byte[16](i requires 0 <= i < 16 => hash[i]);
      assert lastClientHash[..2] == hash[..2] && lastClientHash[2..] == hash[2..];
      buf.Write(lastClientHash[..2]);
      Associate(before, Front(config, side, p), hash[..2]);
    }

    /** The first write also sends the head, and its frame carries the first part of the data. */
    method Encode(buf: Buffer, data: bytes, pick: nat, auth: bytes, fills: nat -> nat -> byte)
      returns (ghost ps: seq<Piece>)
      requires Valid()
      modifies this`lastClientHash, this`packID, this`encrypted, this`hasSentHeader, lastClientHash, randomClient, buf
      ensures Valid() && hasSentHeader && (lastClientHash == old(lastClientHash) || fresh(lastClientHash))
      ensures AllSuit(config, old(Sending()), ps)
      ensures buf.data == old(buf.data) + (if old(hasSentHeader) then [] else auth) + Frames(config, old(Sending()), ps)
      ensures Sending() == After(config, old(Sending()), ps)
      ensures Data(ps) == data
      ensures Parts(ps) == if old(hasSentHeader) then Cut(data, 2800)
                           else [data[..DataLength(data, pick)]] + Cut(data[DataLength(data, pick)..], 2800)
    {
      hide AllSuit, Frames, After, Data, Parts, Cut, DataLength;
      var b, n := data, 0;
      ps := [];
      ghost var side, before := Sending(), buf.data + if hasSentHeader then [] else auth;
      EmptyRun(config, side, before);
      assert buf.data + [] == buf.data;
      if !hasSentHeader {
        var dataLength := DataLength(b, pick);
        HeadFits(b, pick);
        buf.Write(auth);
        ps := EncodeOne(buf, b[..dataLength], fills(0), ps, side, before);
        assert Parts(ps) == [b[..dataLength]];
        b := b[dataLength..];
        n := 1;
        hasSentHeader := true;
      }
      ghost var parts := Parts(ps) + Cut(b, 2800);
      assert [] + Cut(b, 2800) == Cut(b, 2800);
      while |b| > 2800
        invariant Valid() && hasSentHeader && (lastClientHash == old(lastClientHash) || fresh(lastClientHash))
        invariant AllSuit(config, side, ps) && Sending() == After(config, side, ps)
        invariant buf.data == before + Frames(config, side, ps)
        invariant Data(ps) + b == data && Parts(ps) + Cut(b, 2800) == parts
        decreases |b|
      {
        assert b == b[..2800] + b[2800..];
        Associate(Data(ps), b[..2800], b[2800..]);
        CutMore(b, 2800);
        Associate(Parts(ps), [b[..2800]], Cut(b[2800..], 2800));
        ps := EncodeOne(buf, b[..2800], fills(n), ps, side, before);
        b := b[2800..];
        n := n + 1;
      }
      CutLast(b, 2800);
      if |b| > 0 {
        ps := EncodeOne(buf, b, fills(n), ps, side, before);
      } else {
        assert Parts(ps) + [] == Parts(ps);
      }
    }

    method EncodeOne(buf: Buffer, b: bytes, fill: nat -> byte, ghost ps: seq<Piece>, ghost side: Side,
                     ghost before: bytes)
      returns (ghost qs: seq<Piece>)
      requires Valid() && |b| <= 2800
      requires AllSuit(config, side, ps) && Sending() == After(config, side, ps)
      requires buf.data == before + Frames(config, side, ps)
      modifies this`lastClientHash, this`packID, this`encrypted, lastClientHash, randomClient, buf
      ensures Valid() && fresh(lastClientHash)
      ensures AllSuit(config, side, qs) && Sending() == After(config, side, qs)
      ensures buf.data == before + Frames(config, side, qs)
      ensures Data(qs) == Data(ps) + b && Parts(qs) == Parts(ps) + [b]
    {
      hide Parts, Suits, AllSuit, Frames, After, Data, Packed, Next;
      ghost var here := Sending();
      ghost var p := PackData(buf, b, fill);
      qs := ps + [p];
      FramesSnoc(config, side, ps, p);
      DataSnoc(ps, p);
      PartsSnoc(ps, p);
      Associate(before, Frames(config, side, ps), Packed(config, here, p));
    }

    /** The loop over the frames in src. */
    method Decode(dst: Buffer, src: Buffer) returns (end: End)
      requires Valid() && dst != src
      modifies this`rawTrans, this`recvID, this`lastServerHash, this`decrypted, lastServerHash, randomServer, dst, src
      ensures Valid()
      ensures lastServerHash == old(lastServerHash) || fresh(lastServerHash)
      ensures var o := ChainFrames.Decode(config, old(rawTrans), old(Receiving()), old(src.data));
        && end == o.end && dst.data == old(dst.data) + o.out && src.data == o.rest
        && (end != Panicked ==> rawTrans == o.raw && (!rawTrans ==> Receiving() == o.side))
    {
      hide LookAt, Strip;
      ghost var o := ChainFrames.Decode(config, rawTrans, Receiving(), src.data);
      if rawTrans {
        dst.Write(src.data);
        src.Reset();
        return More;
      }
      ghost var out: bytes := [];
      while |src.data| > 4
        invariant Valid() && !rawTrans
        invariant lastServerHash == old(lastServerHash) || fresh(lastServerHash)
        invariant dst.data == old(dst.data) + out
        invariant o == (var r := ChainFrames.Decode(config, false, Receiving(), src.data); r.(out := out + r.out))
        decreases |src.data|
      {
        ghost var side, here := Receiving(), src.data;
        var stop;
        end, stop := DecodeOne(dst, src);
        if end != More {
          return;
        }
        if stop {
          break;
        }
        ghost var piece := Strip(side.id, LookAt(config, side, here).data);
        Associate(old(dst.data), out, piece);
        Associate(out, piece, ChainFrames.Decode(config, false, Receiving(), src.data).out);
        out := out + piece;
      }
      ShortInput(config, Receiving(), src.data);
      end := More;
    }

    /** One pass of the loop.  A try on an incomplete frame leaves only the length in the digest's first two bytes. */
    method DecodeOne(dst: Buffer, src: Buffer) returns (end: End, stop: bool)
      requires Valid() && dst != src && !rawTrans && |src.data| > 4
      modifies this`rawTrans, this`recvID, this`lastServerHash, this`decrypted, lastServerHash, randomServer, dst, src
      ensures Valid() && (lastServerHash == old(lastServerHash) || fresh(lastServerHash))
      ensures match LookAt(config, old(Receiving()), old(src.data))
        case Stop(e) =>
          && end == e && stop && dst.data == old(dst.data)
          && rawTrans == (e == LengthError || e == ChecksumError)
          && src.data == (if e == LengthError || e == ChecksumError then [] else old(src.data))
          && (e == More ==> Receiving() == old(Receiving()))
        case Take(size, data, next) =>
          && end == More && !stop && !rawTrans && Receiving() == next
          && dst.data == old(dst.data) + Strip(old(recvID), data) && src.data == old(src.data)[size..]
    {
      hide Padding, WellFormed, StartPos, Masked, Crypt, Strip;
      stop := true;
      ghost var tail := lastServerHash[2..];
      var dataLength := Masked(U16LE(src.data[..2]), lastServerHash[2..]);
      var n := GetRandLength(rule, dataLength, lastServerHash, randomServer);
      assert config.layout(tail, dataLength) == LayoutOf(rule, tail, dataLength);
      var length := dataLength + n;
      if length >= 4096 {
        rawTrans := true;
        src.Reset();
        return LengthError, stop;
      }
      if 4 + length > |src.data| {
        return More, stop;
      }
      var serverHash := config.hmac(config.userKey + PutU32LE(recvID), src.data[..length + 2]);
      if serverHash[..2] != src.data[length + 2..length + 4] {
        rawTrans := true;
        src.Reset();
        return ChecksumError, stop;
      }
      var ok := Accept(dst, src, dataLength, n, serverHash);
      end, stop := if ok then More else Panicked, !ok;
    }

    /** What becomes of a frame whose digest is right. */
    method Accept(dst: Buffer, src: Buffer, dataLength: nat, n: nat, serverHash: md5) returns (ok: bool)
      requires Valid() && dst != src && 4 + dataLength + n <= |src.data|
      modifies this`recvID, this`lastServerHash, this`decrypted, randomServer, dst, src
      ensures Valid() && fresh(lastServerHash)
      ensures ok <==> !(old(recvID) == 1 && dataLength < 2)
      ensures var pos := 2 + if dataLength > 0 && n > 0 then StartPos(n, old(randomServer.State())) else 0;
        && pos + dataLength <= |old(src.data)|
        && var data := Crypt(config.keyStream, old(decrypted), old(src.data)[pos..pos + dataLength]);
           dst.data == if ok then old(dst.data) + Strip(old(recvID), data) else old(dst.data)
      ensures ok ==> src.data == old(src.data)[dataLength + n + 4..]
      ensures ok ==> Receiving() == Side(NextId(old(recvID)), serverHash[2..], old(decrypted) + dataLength)
      ensures !ok ==> recvID == old(recvID) && src.data == old(src.data)
    {
      hide WellFormed, StartPos, Crypt, Strip, Follows;
      lastServerHash := new byte[16](i requires 0 <= i < 16 => serverHash[i]);
      assert lastServerHash[2..] == serverHash[2..];
      ok := TakeFrame(dst, src, dataLength, n);
    }

    /** Passes on the data of a checked frame; slicing two bytes off a shorter one panics. */
    method TakeFrame(dst: Buffer, src: Buffer, dataLength: nat, n: nat) returns (ok: bool)
      requires Valid() && dst != src && 4 + dataLength + n <= |src.data|
      modifies this`recvID, this`decrypted, randomServer, dst, src
      ensures ok <==> !(old(recvID) == 1 && dataLength < 2)
      ensures decrypted == old(decrypted) + dataLength
      ensures var pos := 2 + if dataLength > 0 && n > 0 then StartPos(n, old(randomServer.State())) else 0;
        && pos + dataLength <= |old(src.data)|
        && var data := Crypt(config.keyStream, old(decrypted), old(src.data)[pos..pos + dataLength]);
           dst.data == if ok then old(dst.data) + Strip(old(recvID), data) else old(dst.data)
      ensures ok ==> recvID == NextId(old(recvID)) && src.data == old(src.data)[dataLength + n + 4..]
      ensures !ok ==> recvID == old(recvID) && src.data == old(src.data)
    {
      hide StartPos, Crypt;
      var pos := 2;
      if dataLength > 0 && n > 0 {
        StartWithin(n, randomServer.State());
        var start := DrawStart(n);
        pos := pos + start;
      }
      var wantedData := Crypt(config.keyStream, decrypted, src.data[pos..pos + dataLength]);
      decrypted := decrypted + dataLength;
      if recvID == 1 && dataLength < 2 {
        return false;
      }
      dst.Write(if recvID == 1 then wantedData[2..] else wantedData);
      recvID := NextId(recvID);
      var _ := src.Next(dataLength + n + 4);
      ok := true;
    }

    method DrawStart(n: nat) returns (start: nat)
      requires n > 0
      modifies randomServer
      ensures start == StartPos(n, old(randomServer.State()))
    {
      var r := randomServer.Next();
      start := r % 8589934609 % n;
    }
  }

  /**
   * What has become of a wire: taken frames have been decoded into out, in
   * lockstep with the receiving side, and less than one frame is waiting in
   * front of what is still to come.
   */
  ghost predicate InStep(c: Config, s0: Side, peer: seq<Piece>, wire: bytes, taken: nat, s: Side,
                         waiting: bytes, rest: bytes, out: bytes)
  {
    && AllSuit(c, s0, peer) && Readable(s0.id, peer) && wire <= Frames(c, s0, peer)
    && taken <= |peer| && AllSuit(c, s0, peer[..taken]) && AllSuit(c, s, peer[taken..])
    && s == After(c, s0, peer[..taken]) && out == Passed(c, s0, peer[..taken])
    && wire == Frames(c, s0, peer[..taken]) + (waiting + rest)
    && ShortOf(c, s, peer[taken..], waiting)
    && (taken > 0 && Bare(peer[taken - 1]) ==> waiting + rest != [])
  }

  class ChainConn {
    const source: Source
    const proto: AuthChain
    const decoded: Buffer
    const underDecoded: Buffer
    ghost const start: Side          // where the receiving side began
    ghost const peer: seq<Piece>     // the pieces the peer sends
    ghost const wire: bytes          // what arrives of their frames
    ghost var taken: nat             // how many have been decoded
    ghost var delivered: bytes       // everything returned by Read
    const conn: Conn
    ghost const begun: Side          // where the sending side began
    ghost var head: bytes            // the head, up to its first frame
    ghost var packed: seq<Piece>     // the frames made behind it
    ghost var written: bytes         // everything passed to Write

    /** A connection whose peer packs these pieces in lockstep with its digests; the wire may be cut anywhere. */
    constructor (config: Config, rule: Rule, clientHash: md5, serverHash: md5, wire: bytes, ghost ps: seq<Piece>)
      requires WellFormed(rule) && Follows(config, rule)
      requires var s := Side(1, serverHash[2..], 0);
        AllSuit(config, s, ps) && Readable(1, ps) && wire <= Frames(config, s, ps)
      ensures Valid() && Honest() && delivered == []
      ensures peer == ps && this.wire == wire && start == Side(1, serverHash[2..], 0)
      ensures Writing() && written == [] && !proto.hasSentHeader && begun == Side(1, clientHash[2..], 0)
    {
      hide InStep, Booked, OnWire, WellFormed, Follows, Frames, AllSuit, Readable, After, Data;
      source := new Source(wire);
      proto := new AuthChain(config, rule, clientHash, serverHash);
      decoded := new Buffer();
      underDecoded := new Buffer();
      start, peer, this.wire, taken, delivered := Side(1, serverHash[2..], 0), ps, wire, 0, [];
      conn := new Conn();
      begun, head, packed, written := Side(1, clientHash[2..], 0), [], [], [];
      new;
      NothingSent(config, begun);
      StartInStep(config, Side(1, serverHash[2..], 0), ps, wire);
      assert [] + [] == delivered;
    }

    ghost predicate Valid()
      reads this, proto
    {
      decoded != underDecoded && proto.Valid()
    }

    /** The books of the writing side, apart from the connection. */
    ghost predicate Packing()
      requires Valid()
      reads this, proto, proto.lastClientHash
    {
      Booked(proto.config, begun, head, packed, proto.Sending(), proto.hasSentHeader, written)
    }

    /** The head, and behind it all data written, in chained frames. */
    ghost predicate Writing()
      requires Valid()
      reads this, proto, proto.lastClientHash, conn
    {
      Packing() && OnWire(proto.config, begun, head, packed, conn.sent)
    }

    /** A write has failed: what has been sent is an initial part of that. */
    ghost predicate Broken()
      requires Valid()
      reads this, proto, proto.lastClientHash, conn
    {
      Packing() && PartOnWire(proto.config, begun, head, packed, conn.sent)
    }

    /** Write; auth stands for the head up to its first frame.  The reading side is not touched. */
    method Write(b: bytes, pick: nat, auth: bytes, fills: nat -> nat -> byte) returns (n: nat, ok: bool)
      requires Valid() && Writing()
      modifies this`head, this`packed, this`written, conn
      modifies proto`lastClientHash, proto`packID, proto`encrypted, proto`hasSentHeader
      modifies proto.lastClientHash, proto.randomClient
      ensures Valid() && fresh({proto.lastClientHash} - {old(proto.lastClientHash)})
      ensures written == old(written) + b && n == if ok then |b| else 0
      ensures if ok then Writing() else Broken()
      ensures proto.hasSentHeader && old(packed) <= packed
      ensures head == if old(proto.hasSentHeader) then old(head) else auth
      ensures old(Honest()) ==> Honest()
    {
      hide Frames, AllSuit, After, InStep, Booked, OnWire, PartOnWire, WellFormed, Follows, Cut, DataLength,
        Parts, Data;
      var buf := new Buffer();
      ghost var side, started, recv := proto.Sending(), proto.hasSentHeader, proto.Receiving();
      ghost var sent, first := conn.sent, if started then [] else auth;
      ghost var ps := proto.Encode(buf, b, pick, auth, fills);
      assert proto.Receiving() == recv;
      assert [] + first == first;
      BookMore(proto.config, begun, head, packed, side, started, written, b, first, ps);
      var m;
      m, ok := conn.Write(buf.data);
      SendMore(proto.config, begun, head, packed, side, started, written, sent, first, ps, m);
      packed, written, head := packed + ps, written + b, head + first;
      n := if ok then |b| else 0;
    }

    /** Everything decoded so far has been delivered or waits in decoded. */
    ghost predicate Honest()
      requires Valid()
      reads this, source, proto, proto.lastServerHash, decoded, underDecoded
    {
      !proto.rawTrans
      && InStep(proto.config, start, peer, wire, taken, proto.Receiving(), underDecoded.data, source.rest,
                delivered + decoded.data)
    }

    /** The decoding of newly arrived bytes. */
    method Refill(got: bytes) returns (ok: bool)
      requires Valid() && decoded.data == []
      modifies this`taken, proto`rawTrans, proto`recvID, proto`lastServerHash, proto`decrypted
      modifies proto.lastServerHash, proto.randomServer, decoded, underDecoded
      ensures Valid() && fresh({proto.lastServerHash} - {old(proto.lastServerHash)})
      ensures !old(proto.rawTrans)
              && InStep(proto.config, start, peer, wire, old(taken), old(proto.Receiving()), old(underDecoded.data),
                        got + source.rest, delivered) ==>
                ok && Honest() && taken >= old(taken)
      ensures var o := ChainFrames.Decode(proto.config, old(proto.rawTrans), old(proto.Receiving()),
                                          old(underDecoded.data) + got);
        && ok == (o.end == More) && decoded.data == o.out && underDecoded.data == o.rest
        && (o.end != Panicked ==> proto.rawTrans == o.raw && (!o.raw ==> proto.Receiving() == o.side))
    {
      hide InStep, ChainFrames.Decode;
      ghost var under, s, raw := underDecoded.data, proto.Receiving(), proto.rawTrans;
      underDecoded.Write(got);
      var end := proto.Decode(decoded, underDecoded);
      if !raw && InStep(proto.config, start, peer, wire, taken, s, under, got + source.rest, delivered) {
        var n := MoveOn(proto.config, start, peer, wire, taken, s, under, got, source.rest, delivered);
        assert decoded.data == ChainFrames.Decode(proto.config, false, s, under + got).out;
        taken := taken + n;
      }
      ok := end == More;
    }

    /**
     * Read.  What is decoded is handed out first; otherwise some bytes are
     * taken from the wire, whatever they are, and decoded.  From a peer's
     * frames it fails only at their end, when no decoded byte is left.
     */
    method Read(max: nat) returns (p: bytes, ok: bool)
      requires Valid()
      modifies this`taken, this`delivered, proto`rawTrans, proto`recvID, proto`lastServerHash, proto`decrypted
      modifies source, proto.lastServerHash, proto.randomServer, decoded, underDecoded
      ensures Valid() && fresh({proto.lastServerHash} - {old(proto.lastServerHash)})
      ensures old(Writing()) ==> Writing()
      ensures |p| <= max && (ok ==> delivered == old(delivered) + p)
      ensures old(Honest()) ==>
                && Honest() && taken >= old(taken)
                && (!ok ==> source.rest == [] && decoded.data == [] && p == [] && delivered == old(delivered))
      ensures if old(decoded.data) != [] then
                && ok && old(decoded.data) == p + decoded.data && source.rest == old(source.rest)
                && proto.rawTrans == old(proto.rawTrans) && proto.Receiving() == old(proto.Receiving())
                && underDecoded.data == old(underDecoded.data)
              else if old(source.rest) == [] then !ok
              else
                && |source.rest| < |old(source.rest)|
                && var o := ChainFrames.Decode(proto.config, old(proto.rawTrans), old(proto.Receiving()),
                                               old(underDecoded.data) + Fetched(old(source.rest), source.rest));
                   && ok == (o.end == More) && p + decoded.data == o.out && underDecoded.data == o.rest
                   && (o.end != Panicked ==> proto.rawTrans == o.raw && (!o.raw ==> proto.Receiving() == o.side))
      ensures !ok ==> p == [] && delivered == old(delivered)
    {
      hide InStep, Booked, OnWire, WellFormed, Follows, ChainFrames.Decode;
      if |decoded.data| > 0 {
        p := Take(max);
        return p, true;
      }
      var got;
      got, ok := source.Read(RELAY_BUFFER_SIZE);
      FetchedFront(got, source.rest);
      assert delivered + [] == delivered;
      if !ok {
        return [], false;
      }
      ok := Refill(got);
      if !ok {
        return [], false;
      }
      p := Take(max);
    }

    method Take(max: nat) returns (p: bytes)
      requires Valid()
      modifies this`delivered, decoded
      ensures |p| <= max && delivered == old(delivered) + p && old(decoded.data) == p + decoded.data
      ensures delivered + decoded.data == old(delivered + decoded.data)
    {
      p := decoded.Read(max);
      Associate(delivered, p, decoded.data);
      delivered := delivered + p;
    }

    /** At any time what was delivered is the front of what the peer's frames pass on. */
    lemma InOrder()
      requires Valid() && Honest()
      ensures AllSuit(proto.config, start, peer) && delivered <= Passed(proto.config, start, peer)
    {
      hide Frames, Passed, AllSuit, Readable, After, ShortOf;
      SplitRun(proto.config, start, peer, taken);
      var rest := Passed(proto.config, proto.Receiving(), peer[taken..]);
      Associate(delivered, decoded.data, rest);
      assert Passed(proto.config, start, peer) == delivered + (decoded.data + rest);
    }

    lemma TakenInRange()
      requires Valid() && Honest()
      ensures taken <= |peer| && Readable(start.id, peer)
    {}

    /**
     * Once the wire has ended and nothing is left decoded, the data of every
     * frame that came whole has been delivered, but for a bare one at its end.
     */
    lemma NothingHeldBack(n: nat)
      requires Valid() && Honest() && source.rest == [] && decoded.data == [] && n <= |peer|
      ensures AllSuit(proto.config, start, peer[..n]) && AllSuit(proto.config, start, peer[..taken])
      ensures var fs := Frames(proto.config, start, peer[..n]);
        n <= taken <==> fs <= wire && !(n > 0 && Bare(peer[n - 1]) && fs == wire)
      ensures delivered == Passed(proto.config, start, peer[..taken])
    {
      hide Frames, Passed, AllSuit, Readable, After, Packed, ShortOf;
      var c, s := proto.config, proto.Receiving();
      assert delivered + [] == delivered && underDecoded.data + [] == underDecoded.data;
      SplitRun(c, start, peer, n);
      if n <= taken {
        Taken(c, start, peer, wire, taken, s, underDecoded.data, delivered, n);
      } else {
        NotTaken(c, start, peer, wire, taken, s, underDecoded.data, delivered, n);
      }
    }
  }

  /** The frames made so far lead to the sending side as it is, and hold what was written. */
  ghost predicate Booked(c: Config, begun: Side, head: bytes, packed: seq<Piece>, side: Side, started: bool,
                         written: bytes)
  {
    && AllSuit(c, begun, packed) && side == After(c, begun, packed) && written == Data(packed)
    && (!started ==> head == [] && packed == [])
  }

  ghost predicate OnWire(c: Config, begun: Side, head: bytes, packed: seq<Piece>, sent: bytes) {
    AllSuit(c, begun, packed) && sent == head + Frames(c, begun, packed)
  }

  ghost predicate PartOnWire(c: Config, begun: Side, head: bytes, packed: seq<Piece>, sent: bytes) {
    AllSuit(c, begun, packed) && sent <= head + Frames(c, begun, packed)
  }

  lemma NothingSent(c: Config, begun: Side)
    ensures Booked(c, begun, [], [], begun, false, []) && OnWire(c, begun, [], [], [])
  {
    EmptyRun(c, begun, []);
  }

  /** More frames behind those made so far. */
  lemma BookMore(c: Config, begun: Side, head: bytes, packed: seq<Piece>, side: Side, started: bool, written: bytes,
                 b: bytes, first: bytes, ps: seq<Piece>)
    requires Booked(c, begun, head, packed, side, started, written) && AllSuit(c, side, ps) && Data(ps) == b
    requires started ==> first == []
    ensures Booked(c, begun, head + first, packed + ps, After(c, side, ps), true, written + b)
    ensures head + first == if started then head else first
  {
    hide AllSuit, After, Data;
    assert started ==> head + [] == head;
    assert !started ==> [] + first == first;
    JoinRuns(c, begun, packed, ps);
    DataAppend(packed, ps);
  }

  /** They go out behind what has been sent, the first ones behind a head. */
  lemma SendMore(c: Config, begun: Side, head: bytes, packed: seq<Piece>, side: Side, started: bool, written: bytes,
                 sent: bytes, first: bytes, ps: seq<Piece>, m: nat)
    requires Booked(c, begun, head, packed, side, started, written) && OnWire(c, begun, head, packed, sent)
    requires AllSuit(c, side, ps) && (started ==> first == []) && m <= |first + Frames(c, side, ps)|
    ensures var buf := first + Frames(c, side, ps);
      && PartOnWire(c, begun, head + first, packed + ps, sent + buf[..m])
      && (m == |buf| ==> OnWire(c, begun, head + first, packed + ps, sent + buf[..m]))
  {
    hide AllSuit, After, Data, Frames;
    JoinRuns(c, begun, packed, ps);
    var f, g := Frames(c, begun, packed), Frames(c, side, ps);
    PartSent(sent, first + g, m);
    Associate(head, f, g);
    Associate(head, first, g);
    if started {
      assert [] + g == g && head + [] == head;
    } else {
      NoFrames(c, begun, packed);
      assert [] + g == g && head + f == head && f + g == g;
    }
  }

  /**
   * From one end to the other.  A reader in lockstep with a writer, whose wire
   * holds what that has made, behind the head, up to anywhere, has the front
   * of the data written, but for two bytes; all of it, when all has come.
   */
  lemma ReaderGetsWritten(w: ChainConn, r: ChainConn)
    requires w.Valid() && w.Packing() && r.Valid() && r.Honest()
    requires r.proto.config == w.proto.config && r.peer == w.packed && r.start == w.begun && w.begun.id == 1
    requires 0 < |w.packed| < TWO_32
    ensures |w.written| >= 2 && r.delivered <= w.written[2..]
    ensures var fs := Frames(w.proto.config, w.begun, w.packed);
      r.source.rest == [] && r.decoded.data == [] && r.wire == fs && !Bare(w.packed[|w.packed| - 1]) ==>
        r.delivered == w.written[2..]
  {
    hide Frames, Data, After, InStep, Passed, Readable, AllSuit;
    r.InOrder();
    r.TakenInRange();
    PassedButTwo(w.proto.config, w.begun, w.packed);
    if r.source.rest == [] && r.decoded.data == [] {
      r.NothingHeldBack(|r.peer|);
      assert r.peer[..|r.peer|] == r.peer;
    }
  }

  /** At the end of the wire, what was taken had come whole, with more behind it if it was bare. */
  lemma Taken(c: Config, s0: Side, peer: seq<Piece>, wire: bytes, taken: nat, s: Side, waiting: bytes, out: bytes,
              n: nat)
    requires InStep(c, s0, peer, wire, taken, s, waiting, [], out) && n <= taken
    ensures AllSuit(c, s0, peer[..n]) && Frames(c, s0, peer[..n]) <= wire
    ensures n > 0 && Bare(peer[n - 1]) ==> Frames(c, s0, peer[..n]) != wire
  {
    hide Frames, Passed, AllSuit, Readable, After, Packed, ShortOf;
    assert waiting + [] == waiting;
    if n < taken {
      FramesGrow(c, s0, peer, n, taken);
    }
  }

  /** What was not taken had not come whole, or was bare and the last to come. */
  lemma NotTaken(c: Config, s0: Side, peer: seq<Piece>, wire: bytes, taken: nat, s: Side, waiting: bytes, out: bytes,
                 n: nat)
    requires InStep(c, s0, peer, wire, taken, s, waiting, [], out) && taken < n <= |peer|
    ensures AllSuit(c, s0, peer[..n])
    ensures Frames(c, s0, peer[..n]) <= wire ==> Bare(peer[n - 1]) && Frames(c, s0, peer[..n]) == wire
  {
    hide Frames, Passed, AllSuit, Readable, After, Packed;
    assert waiting + [] == waiting && peer[taken..][0] == peer[taken];
    FramesGrow(c, s0, peer, taken, n);
    if waiting == Packed(c, s, peer[taken]) {
      FramesGrow(c, s0, peer, taken, taken + 1);
      if taken + 1 < n {
        FramesGrow(c, s0, peer, taken + 1, n);
      }
    }
  }

  lemma StartInStep(c: Config, s: Side, peer: seq<Piece>, wire: bytes)
    requires AllSuit(c, s, peer) && Readable(s.id, peer) && wire <= Frames(c, s, peer)
    ensures InStep(c, s, peer, wire, 0, s, [], wire, [])
  {
    hide Packed, Next, Suits;
    assert [] + wire == wire && peer[..0] == [] && peer[0..] == peer;
    if peer != [] {
      PackedSize(c, s, peer[0]);
    }
  }

  /** Decoding what waits together with newly arrived bytes takes every frame that has come whole. */
  lemma MoveOn(c: Config, s0: Side, peer: seq<Piece>, wire: bytes, taken: nat, s: Side, under: bytes, got: bytes,
               rest: bytes, out: bytes)
    returns (n: nat)
    requires InStep(c, s0, peer, wire, taken, s, under, got + rest, out)
    ensures var o := ChainFrames.Decode(c, false, s, under + got);
      && o.end == More && !o.raw
      && InStep(c, s0, peer, wire, taken + n, o.side, o.rest, rest, out + o.out)
  {
    hide Frames, Passed, AllSuit, Readable, After, ChainFrames.Decode, ShortOf;
    var ahead, src := peer[taken..], under + got;
    Associate(under, got, rest);
    SplitRun(c, s0, peer, taken);
    Cancel(Frames(c, s0, peer[..taken]), src, rest, Frames(c, s, ahead));
    assert src <= src + rest;
    n := DecodeHonest(c, s, ahead, src);
    var both, o := peer[..taken + n], ChainFrames.Decode(c, false, s, src);
    SplitRun(c, s0, peer, taken + n);
    SplitRun(c, s0, both, taken);
    assert both[..taken] == peer[..taken] && both[taken..] == ahead[..n] && ahead[n..] == peer[taken + n..];
    Associate(Frames(c, s, ahead[..n]), o.rest, rest);
    Associate(Frames(c, s0, peer[..taken]), Frames(c, s, ahead[..n]), o.rest + rest);
  }

  lemma StartWithin(n: nat, g: Gen)
    requires n > 0
    ensures StartPos(n, g) < n
  {}

  lemma HeadFits(b: bytes, pick: nat)
    ensures DataLength(b, pick) <= 290
  {}

  lemma ShortInput(c: Config, s: Side, src: bytes)
    ensures |src| <= 4 ==> LookAt(c, s, src) == Stop(More)
  {}

  lemma EmptyRun(c: Config, s: Side, before: bytes)
    ensures AllSuit(c, s, []) && before + Frames(c, s, []) == before && After(c, s, []) == s
    ensures Data([]) == [] && Parts([]) == []
  {}
}
