/**
 * The sending half of an anytls session: frames are buffered until the first
 * flush, then cut and padded on their way to the connection.
 */
module SessionWriter {
  import opened Bytes
  import opened Frames
  import opened Ints
  import opened Padding
  import opened Seqs
  import opened Streams

  function Following(pkt: uint32): uint32 {
    (pkt + 1) % TWO_32
  }

  /** The frames that are not padding. */
  ghost function Payload(fs: seq<Frame>): seq<Frame> {
    if fs == [] then []
    else Payload(fs[..|fs| - 1]) + if fs[|fs| - 1].cmd == CMD_WASTE then [] else [fs[|fs| - 1]]
  }

  ghost predicate AllSound(fs: seq<Frame>) {
    forall f :: f in fs ==> Sound(f)
  }

  ghost predicate AllWaste(fs: seq<Frame>) {
    forall f :: f in fs ==> f.cmd == CMD_WASTE
  }

  ghost predicate NoWaste(fs: seq<Frame>) {
    forall f :: f in fs ==> f.cmd != CMD_WASTE
  }

  lemma {:induction false} PayloadAppend(fs: seq<Frame>, gs: seq<Frame>)
    ensures Payload(fs + gs) == Payload(fs) + Payload(gs)
  {
    if gs == [] {
      assert fs + gs == fs;
    } else {
      var n := |gs| - 1;
      assert (fs + gs)[..|fs + gs| - 1] == fs + gs[..n];
      PayloadAppend(fs, gs[..n]);
    }
  }

  lemma {:induction false} PayloadOf(fs: seq<Frame>)
    ensures NoWaste(fs) ==> Payload(fs) == fs
    ensures AllWaste(fs) ==> Payload(fs) == []
  {
    if fs != [] {
      PayloadOf(fs[..|fs| - 1]);
      assert fs[|fs| - 1] in fs;
      assert fs[..|fs| - 1] + [fs[|fs| - 1]] == fs;
    }
  }

  lemma SoundAppend(fs: seq<Frame>, gs: seq<Frame>)
    ensures AllSound(fs + gs) <==> AllSound(fs) && AllSound(gs)
  {
    hide Sound;
    assert forall f :: f in fs || f in gs ==> f in fs + gs;
  }

  /** A wire of frames followed by a payload and padding carries exactly that payload more. */
  lemma WireGrows(fs: seq<Frame>, gs: seq<Frame>, ws: seq<Frame>)
    requires NoWaste(gs) && AllWaste(ws)
    ensures EncodeAll(fs + gs + ws) == EncodeAll(fs) + EncodeAll(gs) + EncodeAll(ws)
    ensures Payload(fs + gs + ws) == Payload(fs) + gs
    ensures AllSound(fs + gs + ws) <==> AllSound(fs) && AllSound(gs) && AllSound(ws)
  {
    hide Encode, Sound, Payload, AllSound;
    SoundAppend(fs + gs, ws);
    SoundAppend(fs, gs);
    EncodeAllAppend(fs + gs, ws);
    EncodeAllAppend(fs, gs);
    PayloadAppend(fs + gs, ws);
    PayloadAppend(fs, gs);
    PayloadOf(gs);
    PayloadOf(ws);
  }

  ghost predicate AllFit(sizes: seq<size>) {
    forall l :: l in sizes ==> l < TWO_16
  }

  lemma SoundOne(f: Frame)
    ensures AllSound([f]) <==> Sound(f)
  {
    assert f in [f];
  }

  function Waste(l: nat): Frame {
    Frame(CMD_WASTE, 0, Zeros(l))
  }

  lemma OneWaste(l: nat)
    ensures AllWaste([Waste(l)]) && EncodeAll([Waste(l)]) == WasteBytes(l)
    ensures AllSound([Waste(l)]) <==> l < TWO_16
  {
    EncodeAllOne(Waste(l));
    SoundOne(Waste(l));
  }

  /** One record of a packet: payload, payload with padding behind it, or a padding frame. */
  function RecordOf(b: bytes, l: nat): bytes {
    if |b| > l then b[..l]
    else if |b| > 0 then b + if l - |b| - HEADER > 0 then WasteBytes(l - |b| - HEADER) else []
    else WasteBytes(l)
  }

  /** The records a packet goes out in, one for each size; at a check mark it ends if no payload is left. */
  function RecordsOf(b: bytes, sizes: seq<size>): seq<bytes>
    decreases |sizes|
  {
    if sizes == [] then if b == [] then [] else [b]
    else if sizes[0] == CHECK_MARK then if b == [] then [] else RecordsOf(b, sizes[1..])
    else [RecordOf(b, sizes[0])] + RecordsOf(if |b| > sizes[0] then b[sizes[0]..] else [], sizes[1..])
  }

  /** A record with payload never exceeds its size, and has exactly that size unless no padding frame fits behind it. */
  lemma RecordSize(b: bytes, l: nat)
    ensures b != [] ==> |RecordOf(b, l)| <= l && (|RecordOf(b, l)| < l ==> l - HEADER <= |b| == |RecordOf(b, l)|)
    ensures b == [] ==> |RecordOf(b, l)| == HEADER + l
  {}

  /** How much payload the records of these sizes can hold. */
  function Capacity(sizes: seq<size>): nat {
    if sizes == [] then 0 else (if sizes[0] == CHECK_MARK then 0 else sizes[0]) + Capacity(sizes[1..])
  }

  ghost predicate NoMark(sizes: seq<size>) {
    forall i :: 0 <= i < |sizes| ==> sizes[i] != CHECK_MARK
  }

  /**
   * There is a record for every size up to a check mark, and one for payload
   * that is left when the sizes have run out.  At the mark the packet ends if
   * its payload is out; otherwise the mark makes no difference.
   */
  lemma {:induction false} MarkEnds(b: bytes, before: seq<size>, after: seq<size>)
    requires NoMark(before)
    ensures |RecordsOf(b, before)| == |before| + if |b| > Capacity(before) then 1 else 0
    ensures RecordsOf(b, before + ([CHECK_MARK] + after))
         == if |b| > Capacity(before) then RecordsOf(b, before + after) else RecordsOf(b, before)
    decreases |before|
  {
    hide RecordOf;
    if before == [] {
      assert before + ([CHECK_MARK] + after) == [CHECK_MARK] + after && before + after == after;
      assert ([CHECK_MARK] + after)[1..] == after;
    } else {
      var l := before[0];
      assert (before + ([CHECK_MARK] + after))[1..] == before[1..] + ([CHECK_MARK] + after);
      assert (before + after)[1..] == before[1..] + after;
      MarkEnds(if |b| > l then b[l..] else [], before[1..], after);
    }
  }

  /** What one flush hands to the connection: padded records while the scheme lasts, else everything at once. */
  ghost function PacketOf(sendPadding: bool, pkt: uint32, b: bytes, padding: Factory, draws: nat -> nat): seq<bytes> {
    if sendPadding && pkt < padding.stop then RecordsOf(b, PacketSizes(padding, pkt, draws)) else [b]
  }

  class Writer {
    const conn: Conn
    var buffering: bool
    var buffer: bytes
    var sendPadding: bool
    var pktCounter: uint32
    ghost var onWire: seq<Frame>     // every frame given to the connection
    ghost var pending: seq<Frame>    // the frames in buffer
    ghost var submitted: seq<Frame>  // the frames passed to WriteFrame

    /** Nothing has failed yet: the wire holds whole frames, and nothing is lost or reordered. */
    ghost predicate Valid()
      reads this, conn
    {
      && conn.sent == EncodeAll(onWire) && buffer == EncodeAll(pending)
      && NoWaste(pending)
      && Payload(onWire) + pending == submitted
    }

    /** A write has failed: the wire is cut somewhere inside a run of whole frames. */
    ghost predicate Broken()
      reads this, conn
    {
      conn.sent <= EncodeAll(onWire) && Payload(onWire) == submitted
    }

    /** No length on the wire or in the buffer was cut to 16 bits. */
    ghost predicate Clean()
      reads this
    {
      AllSound(onWire) && AllSound(pending)
    }

    /** A client session: padding is on, and Run turns buffering on at once. */
    constructor (isClient: bool)
      ensures Valid() && Clean() && fresh(conn) && submitted == [] && buffering == sendPadding == isClient
    {
      conn := new Conn();
      buffering, buffer, sendPadding, pktCounter := isClient, [], isClient, 0;
      onWire, pending, submitted := [], [], [];
    }

    /** A header and its data, handed to writeConn in one piece; the sizes writeConn counts are not passed on. */
    method WriteFrame(f: Frame, padding: Factory, draws: nat -> nat) returns (n: nat, ok: bool)
      requires Valid() && f.cmd != CMD_WASTE
      modifies this, conn
      ensures old(Clean()) && Sound(f) && FitsFrames(padding) ==> Clean()
      ensures submitted == old(submitted) + [f] && n == if ok then |f.data| else 0
      ensures if ok then Valid() else Broken()
      ensures buffering == old(buffering) && (buffering ==> ok && conn.sent == old(conn.sent))
      ensures ok && !buffering ==> pending == [] && Payload(onWire) == submitted
    {
      hide Sound, FitsFrames, Payload, AllSound;
      var buffer: bytes := [f.cmd];
      buffer := buffer + PutU32BE(f.sid);
      buffer := buffer + PutU16BE(|f.data| % TWO_16);
      buffer := buffer + f.data;
      var m;
      m, ok := WriteConn(buffer, f, padding, draws);
      n := if ok then |f.data| else 0;
      assert ok && !buffering ==> Payload(onWire) + [] == Payload(onWire);
    }

    method WriteDataFrame(sid: uint32, data: bytes, padding: Factory, draws: nat -> nat) returns (n: nat, ok: bool)
      requires Valid()
      modifies this, conn
      ensures old(Clean()) && |data| < TWO_16 && FitsFrames(padding) ==> Clean()
      ensures submitted == old(submitted) + [Frame(CMD_PSH, sid, data)] && n == if ok then |data| else 0
      ensures if ok then Valid() else Broken()
      ensures ok && !buffering ==> pending == [] && Payload(onWire) == submitted
    {
      hide FitsFrames, Payload, AllSound;
      n, ok := WriteFrame(Frame(CMD_PSH, sid, data), padding, draws);
    }

    /** Session.OpenStream's part in writing: the SYN is still buffered, and then the buffering ends. */
    method OpenStream(sid: uint32, padding: Factory, draws: nat -> nat) returns (ok: bool)
      requires Valid()
      modifies this, conn
      ensures old(Clean()) && FitsFrames(padding) ==> Clean()
      ensures submitted == old(submitted) + [Frame(CMD_SYN, sid, [])]
      ensures if ok then Valid() && !buffering else Broken()
      ensures old(buffering) ==> ok && conn.sent == old(conn.sent)
    {
      hide FitsFrames, Payload, AllSound;
      var n;
      n, ok := WriteFrame(Frame(CMD_SYN, sid, []), padding, draws);
      if ok {
        buffering := false;
      }
    }

    /** Session.writeConn, given the frame whose bytes it is passed. */
    method WriteConn(b0: bytes, ghost f: Frame, padding: Factory, draws: nat -> nat) returns (n: nat, ok: bool)
      requires Valid() && b0 == Encode(f) && f.cmd != CMD_WASTE
      modifies this, conn
      ensures old(Clean()) && Sound(f) && FitsFrames(padding) ==> Clean()
      ensures submitted == old(submitted) + [f] && buffering == old(buffering)
      ensures buffering ==> ok && n == |b0| && conn.sent == old(conn.sent) && pending == old(pending) + [f]
      ensures ok ==> Valid()
      ensures ok && !buffering ==> buffer == [] && pending == [] && n == |old(buffer)| + |b0|
      ensures !ok ==> Broken()
      ensures !buffering ==>
                && pktCounter == (if old(sendPadding) then Following(old(pktCounter)) else old(pktCounter))
                && sendPadding == (old(sendPadding) && pktCounter < padding.stop)
                && (ok ==>
                      conn.writes == old(conn.writes)
                        + PacketOf(sendPadding, pktCounter, old(buffer) + b0, padding, draws))
    {
      hide Encode, Sound, Payload, EncodeAll, PacketOf, FitsFrames, AllSound;
      NoWasteYet();
      var b := b0;
      ghost var carried := pending + [f];
      EncodeAllAppend(pending, [f]);
      EncodeAllOne(f);
      SoundOne(f);
      SoundAppend(pending, [f]);
      assert submitted + [f] == Payload(onWire) + carried;
      submitted := submitted + [f];
      if buffering {
        buffer := buffer + b;
        pending := carried;
        return |b|, true;
      } else if |buffer| > 0 {
        b := buffer + b;
        buffer := [];
      }
      assert b == old(buffer) + b0;
      pending := [];
      n, ok := Flush(b, carried, padding, draws);
    }

    /** The part of writeConn that reaches the connection. */
    method Flush(b: bytes, ghost carried: seq<Frame>, padding: Factory, draws: nat -> nat) returns (n: nat, ok: bool)
      requires conn.sent == EncodeAll(onWire) && NoWaste(carried)
      requires b == EncodeAll(carried) && buffer == [] && pending == [] && Payload(onWire) + carried == submitted
      modifies this`sendPadding, this`pktCounter, this`onWire, conn
      ensures old(AllSound(onWire)) && AllSound(carried) && FitsFrames(padding) ==> AllSound(onWire)
      ensures ok ==> Valid() && n == |b|
      ensures !ok ==> Broken()
      ensures pktCounter == if old(sendPadding) then Following(old(pktCounter)) else old(pktCounter)
      ensures sendPadding == (old(sendPadding) && pktCounter < padding.stop)
      ensures ok ==> conn.writes == old(conn.writes) + PacketOf(sendPadding, pktCounter, b, padding, draws)
    {
      hide Encode, Sound, Payload, EncodeAll, FitsFrames, RecordsOf, AllSound;
      NoWasteYet();
      ghost var ws := [];
      WireGrows(onWire, carried, ws);
      if sendPadding {
        pktCounter := Following(pktCounter);
        if pktCounter < padding.stop {
          var pktSizes := GenerateRecordPayloadSizes(padding, pktCounter, draws);
          if FitsFrames(padding) {
            SizesFit(padding, pktCounter, pktSizes);
          }
          n, ok, ws := WriteRecords(b, pktSizes);
          WireGrows(onWire, carried, ws);
          assert Payload(onWire) + carried + [] == submitted;
          assert EncodeAll(onWire) + EncodeAll(carried) + EncodeAll(ws) == EncodeAll(onWire) + (b + EncodeAll(ws));
          onWire := onWire + carried + ws;
          return;
        } else {
          sendPadding := false;
        }
      }
      assert Payload(onWire) + carried + [] == submitted;
      assert EncodeAll(onWire) + b + [] == EncodeAll(onWire) + b;
      onWire := onWire + carried + ws;
      n, ok := conn.Write(b);
    }

    /** One round of that loop: a record of payload, of payload and padding, or of padding. */
    method SendRecord(b: bytes, l: nat) returns (n: nat, rest: bytes, ok: bool, ghost w: seq<Frame>)
      requires 0 < l
      modifies conn
      ensures AllWaste(w) && (rest != [] ==> w == []) && (l < TWO_16 ==> AllSound(w))
      ensures n + |rest| == |b| && rest == if |b| > l then b[l..] else []
      ensures conn.writes == old(conn.writes) + [RecordOf(b, l)]
      ensures ok ==> conn.sent + rest == old(conn.sent) + (b + EncodeAll(w))
      ensures !ok ==> conn.sent <= old(conn.sent) + (b + EncodeAll(w))
    {
      hide Encode, EncodeAll, AllWaste, AllSound, WasteBytes;
      NoWasteYet();
      w := [];
      var record := b;
      n, rest := |b|, [];
      if |b| > l {
        record, n, rest := b[..l], l, b[l..];
        assert record + rest == b + [];
      } else if |b| > 0 {
        var paddingLen := l - |b| - HEADER;
        if paddingLen > 0 {
          record := b + WasteBytes(paddingLen);
          OneWaste(paddingLen);
          w := [Waste(paddingLen)];
        }
      } else {
        record := WasteBytes(l);
        OneWaste(l);
        w := [Waste(l)];
        assert b + EncodeAll(w) == EncodeAll(w);
      }
      assert b + [] == b;
      assert record == RecordOf(b, l) && record + rest == b + EncodeAll(w);
      Associate(conn.sent, record, rest);
      var sent;
      sent, ok := conn.Write(record);
      if ok {
        assert record[..sent] == record;
      } else {
        assert record[..sent] <= record <= record + rest;
      }
    }

    /** The loop of writeConn over the record sizes, and the write of what is left. */
    method WriteRecords(b0: bytes, pktSizes: seq<size>) returns (n: nat, ok: bool, ghost ws: seq<Frame>)
      modifies conn
      ensures AllWaste(ws) && (AllFit(pktSizes) ==> AllSound(ws))
      ensures ok ==> n == |b0| && conn.sent == old(conn.sent) + (b0 + EncodeAll(ws))
      ensures !ok ==> conn.sent <= old(conn.sent) + (b0 + EncodeAll(ws))
      ensures ok ==> conn.writes == old(conn.writes) + RecordsOf(b0, pktSizes)
    {
      hide Encode, EncodeAll, AllWaste, AllSound, RecordsOf, RecordOf;
      var b := b0;
      n, ws := 0, [];
      NoWasteYet();
      ghost var start, all := conn.sent, conn.writes + RecordsOf(b0, pktSizes);
      assert pktSizes[0..] == pktSizes;
      for k := 0 to |pktSizes|
        invariant AllWaste(ws) && (b != [] ==> ws == []) && (AllFit(pktSizes) ==> AllSound(ws))
        invariant n + |b| == |b0|
        invariant conn.sent + b == start + (b0 + EncodeAll(ws))
        invariant conn.writes + RecordsOf(b, pktSizes[k..]) == all
      {
        var l := pktSizes[k];
        RecordsStep(b, pktSizes, k);
        assert AllFit(pktSizes) ==> l < TWO_16 by { assert l in pktSizes; }
        if l == CHECK_MARK {
          if |b| == 0 {
            break;
          } else {
            continue;
          }
        }
        ghost var writes, sent, was := conn.writes, conn.sent, b;
        var m, rest, done;
        ghost var w;
        m, rest, done, w := SendRecord(b, l);
        WasteMore(ws, w);
        SoundAppend(ws, w);
        Regroup(sent, was, EncodeAll(w), start, b0, EncodeAll(ws));
        ws := ws + w;
        if !done {
          return 0, false, ws;
        }
        Associate(writes, [RecordOf(was, l)], RecordsOf(rest, pktSizes[k + 1..]));
        n := n + m;
        b := rest;
      }
      RecordsEnd(b);
      assert pktSizes[|pktSizes|..] == [];
      assert conn.writes + RecordsOf(b, []) == all;
      if |b| == 0 {
        return n, true, ws;
      }
      var n2, sent := conn.Write(b);
      return n + n2, sent, ws;
    }

    lemma WasteMore(ws: seq<Frame>, w: seq<Frame>)
      requires AllWaste(ws) && AllWaste(w)
      ensures AllWaste(ws + w) && EncodeAll(ws + w) == EncodeAll(ws) + EncodeAll(w)
    {
      hide EncodeAll;
      EncodeAllAppend(ws, w);
    }

    lemma Regroup(sent: bytes, b: bytes, e: bytes, start: bytes, b0: bytes, d: bytes)
      requires sent + b == start + (b0 + d)
      ensures sent + (b + e) == start + (b0 + (d + e))
    {
      Associate(sent, b, e);
      Associate(start, b0 + d, e);
      Associate(b0, d, e);
    }

    lemma RecordsStep(b: bytes, sizes: seq<size>, k: nat)
      requires k < |sizes|
      ensures RecordsOf(b, sizes[k..])
           == if sizes[k] == CHECK_MARK then if b == [] then [] else RecordsOf(b, sizes[k + 1..])
              else [RecordOf(b, sizes[k])] + RecordsOf(if |b| > sizes[k] then b[sizes[k]..] else [], sizes[k + 1..])
    {
      assert sizes[k..][1..] == sizes[k + 1..];
    }

    lemma RecordsEnd(b: bytes)
      ensures RecordsOf(b, []) == if b == [] then [] else [b]
    {}

    lemma NoWasteYet()
      ensures AllWaste([]) && EncodeAll([]) == [] && AllSound([])
    {}

    lemma SizesFit(padding: Factory, pkt: uint32, pktSizes: seq<size>)
      requires FitsFrames(padding)
      requires pktSizes != [] ==> pkt in padding.lines
      requires forall l :: l in pktSizes && l != CHECK_MARK ==>
        exists a, b :: Range(a, b) in padding.lines[pkt] && (a <= l <= b || b <= l <= a)
      ensures AllFit(pktSizes)
    {}
  }
}
