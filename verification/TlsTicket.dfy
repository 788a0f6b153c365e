/**
 * The tls1.2_ticket_auth obfuscation: data written before the handshake is over
 * waits in a buffer, already cut into records, and goes out with its last message.
 */
module TlsTicket {
  import opened Bytes
  import opened Ints
  import opened Seqs
  import opened SsrBase
  import opened Streams

  const MAGIC: bytes := [0x17, 3, 3]

  /** A record; a length beyond 16 bits is cut to them. */
  function Record(d: bytes): bytes {
    MAGIC + PutU16BE(|d| % TWO_16) + d
  }

  function Records(ds: seq<bytes>): bytes {
    if ds == [] then [] else Record(ds[0]) + Records(ds[1..])
  }

  /** A record the reader takes whole: not empty, and its length fits in 16 bits. */
  predicate Sound(d: bytes) {
    0 < |d| < TWO_16
  }

  ghost predicate AllSound(ds: seq<bytes>) {
    forall i :: 0 <= i < |ds| ==> Sound(ds[i])
  }

  lemma {:induction false} Append(xs: seq<bytes>, ys: seq<bytes>)
    ensures Records(xs + ys) == Records(xs) + Records(ys)
    ensures Flatten(xs + ys) == Flatten(xs) + Flatten(ys)
  {
    hide Record, Flatten;
    FlattenAppend(xs, ys);
    if xs == [] {
      assert xs + ys == ys;
    } else {
      assert (xs + ys)[1..] == xs[1..] + ys;
      Append(xs[1..], ys);
      Associate(Record(xs[0]), Records(xs[1..]), Records(ys));
    }
  }

  lemma One(d: bytes)
    ensures Records([d]) == Record(d) && Flatten([d]) == d
  {
    assert [d][1..] == [];
  }

  // ---------------------------------------------------------------- reading records

  datatype Outcome = Outcome(out: bytes, rest: bytes, ok: bool)

  /** The loop over the records that have come whole; a wrong magic number throws the rest away. */
  function Decode(src: bytes): Outcome
    decreases |src|
  {
    if |src| <= 5 then Outcome([], src, true)
    else if src[..3] != MAGIC then Outcome([], [], false)
    else
      var size := U16BE(src[3..5]);
      if |src| < 5 + size then Outcome([], src, true)
      else
        var o := Decode(src[5 + size..]);
        o.(out := src[5..5 + size] + o.out)
  }

  /**
   * Stopping for lack of bytes and going on when more have come is the same as
   * having had them all: the fragmentation of any input has no effect.
   */
  lemma {:induction false} Resume(src: bytes, more: bytes)
    requires Decode(src).ok
    ensures var o := Decode(src);
      && var o2 := Decode(o.rest + more);
         Decode(src + more) == o2.(out := o.out + o2.out)
    decreases |src|
  {
    hide Decode, U16BE;
    if |src| <= 5 || src[..3] != MAGIC || 5 + U16BE(src[3..5]) > |src| {
      DecodeShort(src);
      assert [] + Decode(src + more).out == Decode(src + more).out;
    } else {
      var all, size: nat := src + more, U16BE(src[3..5]);
      assert all[..3] == src[..3] && all[3..5] == src[3..5];
      DecodeFirst(src, size);
      DecodeFirst(all, size);
      assert all[5..5 + size] == src[5..5 + size] && all[5 + size..] == src[5 + size..] + more;
      Resume(src[5 + size..], more);
      var o := Decode(src[5 + size..]);
      Associate(src[5..5 + size], o.out, Decode(o.rest + more).out);
    }
  }

  lemma DecodeShort(src: bytes)
    requires |src| <= 5 || src[..3] != MAGIC || 5 + U16BE(src[3..5]) > |src|
    ensures Decode(src).ok ==> Decode(src) == Outcome([], src, true)
  {
    hide U16BE;
  }

  lemma RecordParts(d: bytes, rest: bytes)
    ensures var src := Record(d) + rest;
      && |src| == 5 + |d| + |rest| && src[..3] == MAGIC && U16BE(src[3..5]) == |d| % TWO_16
      && src[5..] == d + rest
  {
    var src := Record(d) + rest;
    assert src[3..5] == PutU16BE(|d| % TWO_16);
    RoundTrip16(|d| % TWO_16, []);
    assert PutU16BE(|d| % TWO_16) + [] == PutU16BE(|d| % TWO_16);
  }

  /** A record alone is read back exactly when it is not empty and its length fits in 16 bits. */
  lemma RecordReadsBack(d: bytes)
    ensures Decode(Record(d)) == Outcome(d, [], true) <==> Sound(d)
  {
    hide Record;
    RecordParts(d, []);
    assert Record(d) + [] == Record(d);
    var src := Record(d);
    if |d| > 0 {
      var size := |d| % TWO_16;
      assert src[5..5 + size] == d[..size];
      if |d| < TWO_16 {
        assert d[..size] == d && src[5 + size..] == [];
        assert d + [] == d;
      } else {
        Shorter(src[5 + size..]);
        assert |Decode(src).out| <= size + |src[5 + size..]| - 1;
      }
    }
  }

  /** Reading never yields as many bytes as there were. */
  lemma {:induction false} Shorter(src: bytes)
    ensures src != [] ==> |Decode(src).out| < |src|
    decreases |src|
  {
    if |src| > 5 && src[..3] == MAGIC {
      var size: nat := U16BE(src[3..5]);
      if |src| >= 5 + size {
        Shorter(src[5 + size..]);
        if src[5 + size..] == [] {
          assert Decode([]).out == [];
        }
      }
    }
  }

  lemma DecodeWhole(d: bytes, rest: bytes)
    requires Sound(d)
    ensures var o := Decode(rest); Decode(Record(d) + rest) == o.(out := d + o.out)
  {
    hide Record, Decode, U16BE;
    RecordParts(d, rest);
    var src := Record(d) + rest;
    BehindHead(src, d, rest);
    DecodeFirst(src, |d|);
  }

  lemma DecodeFirst(src: bytes, size: nat)
    requires |src| > 5 && src[..3] == MAGIC && U16BE(src[3..5]) == size && 5 + size <= |src|
    ensures var o := Decode(src[5 + size..]); Decode(src) == o.(out := src[5..5 + size] + o.out)
  {
    hide U16BE;
  }

  lemma BehindHead(src: bytes, d: bytes, rest: bytes)
    requires |src| == 5 + |d| + |rest| && src[5..] == d + rest
    ensures src[5..5 + |d|] == d && src[5 + |d|..] == rest
  {
    assert src[5..5 + |d|] == src[5..][..|d|];
    assert src[5 + |d|..] == src[5..][|d|..];
  }

  lemma DecodeCut(d: bytes, src: bytes)
    requires Sound(d) && src < Record(d)
    ensures Decode(src) == Outcome([], src, true)
  {
    hide Record;
    RecordParts(d, []);
    assert Record(d) + [] == Record(d);
    assert src == Record(d)[..|src|];
    if |src| > 5 {
      assert src[..3] == Record(d)[..3] && src[3..5] == Record(d)[3..5];
    }
  }

  /** Reading src took the first n records of a run whole, and kept what there is of the next. */
  ghost predicate Decoded(ds: seq<bytes>, src: bytes, n: nat) {
    var o := Decode(src);
    && n <= |ds| && o.ok
    && o.out == Flatten(ds[..n]) && src == Records(ds[..n]) + o.rest
    && ShortOf(ds[n..], o.rest)
  }

  /** Less than one record of a run. */
  predicate ShortOf(ds: seq<bytes>, waiting: bytes) {
    if ds == [] then waiting == [] else waiting < Record(ds[0])
  }

  lemma DecodedStep(ds: seq<bytes>, rest: bytes, n: nat)
    requires ds != [] && Sound(ds[0]) && Decoded(ds[1..], rest, n)
    ensures Decoded(ds, Record(ds[0]) + rest, n + 1)
  {
    hide Record, Decode, ShortOf;
    DecodeWhole(ds[0], rest);
    assert ds[..n + 1][1..] == ds[1..][..n] && ds[n + 1..] == ds[1..][n..];
    Associate(Record(ds[0]), Records(ds[1..][..n]), Decode(rest).rest);
  }

  lemma DecodedNone(ds: seq<bytes>, src: bytes)
    requires AllSound(ds) && ShortOf(ds, src)
    ensures Decoded(ds, src, 0)
  {
    hide Record;
    assert ds[..0] == [] && ds[0..] == ds && [] + src == src;
    if ds == [] {
      DecodeNothing();
    } else {
      DecodeCut(ds[0], src);
    }
  }

  /** Reading an initial part of a run of sound records: the whole ones in order, the cut one kept. */
  lemma {:induction false} DecodeHonest(ds: seq<bytes>, src: bytes) returns (n: nat)
    requires AllSound(ds) && src <= Records(ds)
    ensures Decoded(ds, src, n)
    decreases |ds|
  {
    hide Record, Decoded;
    if ds == [] {
      n := 0;
      DecodedNone(ds, src);
    } else {
      PrefixSplit(src, Record(ds[0]), Records(ds[1..]));
      if Record(ds[0]) <= src {
        var rest := src[|Record(ds[0])|..];
        var m := DecodeHonest(ds[1..], rest);
        n := m + 1;
        DecodedStep(ds, rest, m);
        assert src == Record(ds[0]) + rest;
      } else {
        n := 0;
        DecodedNone(ds, src);
      }
    }
  }

  /** Records of a peer, then something else: their data is kept, the rest is dropped, and reading fails. */
  lemma {:induction false} TamperedRun(ds: seq<bytes>, bad: bytes)
    requires AllSound(ds) && |bad| > 5 && bad[..3] != MAGIC
    ensures Decode(Records(ds) + bad) == Outcome(Flatten(ds), [], false)
  {
    hide Record, Decode;
    if ds == [] {
      assert [] + bad == bad;
      RefusedAtOnce(bad);
    } else {
      TamperedRun(ds[1..], bad);
      Associate(Record(ds[0]), Records(ds[1..]), bad);
      DecodeWhole(ds[0], Records(ds[1..]) + bad);
    }
  }

  lemma RefusedAtOnce(bad: bytes)
    requires |bad| > 5 && bad[..3] != MAGIC
    ensures Decode(bad) == Outcome([], [], false)
  {}

  /** The records ds, some of them empty perhaps, are the front of the input, and just their data has been read. */
  ghost predicate Explained(src: bytes, ds: seq<bytes>) {
    var o := Decode(src);
    && (forall i :: 0 <= i < |ds| ==> |ds[i]| < TWO_16)
    && Records(ds) <= src && o.out == Flatten(ds)
    && if o.ok then src == Records(ds) + o.rest else o.rest == []
  }

  /** Is the first record of the input there? */
  predicate Starts(src: bytes) {
    |src| > 5 && src[..3] == MAGIC && 5 + U16BE(src[3..5]) <= |src|
  }

  lemma ExplainedStep(src: bytes, size: nat, es: seq<bytes>)
    requires Starts(src) && size == U16BE(src[3..5]) && Explained(src[5 + size..], es)
    ensures Explained(src, [src[5..5 + size]] + es)
  {
    hide U16BE, Record, Decode;
    var d, rest, ds := src[5..5 + size], src[5 + size..], [src[5..5 + size]] + es;
    assert ds[1..] == es;
    DecodeFirst(src, size);
    RecordAgain(src, size);
    var gone := rest[|Records(es)|..];
    assert rest == Records(es) + gone;
    Associate(Record(d), Records(es), gone);
    assert Records(ds) == Record(d) + Records(es) && Flatten(ds) == d + Flatten(es);
  }

  lemma ExplainedAtOnce(src: bytes)
    requires !Starts(src)
    ensures Explained(src, [])
  {
    hide U16BE, Decode;
    DecodeStops(src);
    assert [] + src == src;
  }

  /** On any input, only what came in records is read. */
  lemma {:induction false} DecodedIsRecords(src: bytes) returns (ds: seq<bytes>)
    ensures Explained(src, ds)
    decreases |src|
  {
    hide U16BE, Explained;
    if Starts(src) {
      var size: nat := U16BE(src[3..5]);
      var es := DecodedIsRecords(src[5 + size..]);
      ExplainedStep(src, size, es);
      ds := [src[5..5 + size]] + es;
    } else {
      ExplainedAtOnce(src);
      ds := [];
    }
  }

  lemma DecodeStops(src: bytes)
    requires |src| <= 5 || src[..3] != MAGIC || 5 + U16BE(src[3..5]) > |src|
    ensures Decode(src).out == [] && Decode(src).rest == if Decode(src).ok then src else []
  {
    hide U16BE;
  }

  lemma RecordAgain(src: bytes, size: nat)
    requires |src| > 5 && src[..3] == MAGIC && U16BE(src[3..5]) == size && 5 + size <= |src|
    ensures Record(src[5..5 + size]) + src[5 + size..] == src
  {
    var d := src[5..5 + size];
    assert PutU16BE(size) == src[3..5];
    assert Record(d) == src[..3] + src[3..5] + d;
  }

  /**
   * What has become of the records on a wire: taken ones have been read into
   * out, and less than one is waiting in front of what is still to come.
   */
  ghost predicate InStep(peer: seq<bytes>, wire: bytes, taken: nat, waiting: bytes, rest: bytes, out: bytes) {
    && AllSound(peer) && wire <= Records(peer)
    && taken <= |peer| && out == Flatten(peer[..taken])
    && wire == Records(peer[..taken]) + (waiting + rest)
    && ShortOf(peer[taken..], waiting)
  }

  lemma Split(ds: seq<bytes>, n: nat)
    requires n <= |ds|
    ensures Records(ds) == Records(ds[..n]) + Records(ds[n..]) && Flatten(ds) == Flatten(ds[..n]) + Flatten(ds[n..])
  {
    hide Record, Records, Flatten;
    assert ds == ds[..n] + ds[n..];
    Append(ds[..n], ds[n..]);
  }

  /** Reading what waits together with newly arrived bytes takes every record that has come whole. */
  lemma MoveOn(peer: seq<bytes>, wire: bytes, taken: nat, under: bytes, got: bytes, rest: bytes, out: bytes)
    returns (n: nat)
    requires InStep(peer, wire, taken, under, got + rest, out)
    ensures var o := Decode(under + got);
      o.ok && InStep(peer, wire, taken + n, o.rest, rest, out + o.out)
  {
    hide Record, Records, Flatten, Decode, ShortOf;
    var ahead, src := peer[taken..], under + got;
    Associate(under, got, rest);
    Split(peer, taken);
    Cancel(Records(peer[..taken]), src, rest, Records(ahead));
    assert src <= src + rest;
    n := DecodeHonest(ahead, src);
    var both, o := peer[..taken + n], Decode(src);
    Split(both, taken);
    assert both[..taken] == peer[..taken] && both[taken..] == ahead[..n] && ahead[n..] == peer[taken + n..];
    Associate(Records(ahead[..n]), o.rest, rest);
    Associate(Records(peer[..taken]), Records(ahead[..n]), o.rest + rest);
  }

  lemma DecodeNothing()
    ensures Decode([]) == Outcome([], [], true)
  {}

  // ---------------------------------------------------------------- the connection

  /** A draw of the size of one record: at least 100 bytes and less than 4196. */
  function RecordSize(left: nat, pick: nat): nat {
    var size := Intn(4096, pick) + 100;
    if left < size then left else size
  }

  /** The records of data written after the handshake, their sizes drawn one by one. */
  function CutAtRandom(b: bytes, picks: nat -> nat, i: nat): seq<bytes>
    decreases |b|
  {
    if |b| <= 2048 then if b == [] then [] else [b]
    else
      var size := RecordSize(|b|, picks(i));
      [b[..size]] + CutAtRandom(b[size..], picks, i + 1)
  }

  /** All records but the last have 100 to 4195 bytes, and nothing is cut off the last 2048. */
  lemma {:induction false} CutSizes(b: bytes, picks: nat -> nat, i: nat)
    ensures Flatten(CutAtRandom(b, picks, i)) == b
    ensures var ds := CutAtRandom(b, picks, i);
      && (forall k :: 0 <= k < |ds| - 1 ==> 100 <= |ds[k]| < 4196)
      && (ds != [] ==> 0 < |ds[|ds| - 1]| < 4196)
      && (|ds| <= 1 <== |b| <= 2048)
    decreases |b|
  {
    var ds := CutAtRandom(b, picks, i);
    if |b| <= 2048 {
      One(b);
    } else {
      var size := RecordSize(|b|, picks(i));
      CutSizes(b[size..], picks, i + 1);
      assert ds[1..] == CutAtRandom(b[size..], picks, i + 1);
      assert b == b[..size] + b[size..];
    }
  }

  class TicketConn {
    const conn: Conn
    const source: Source
    const hmac: bytes -> bytes
    var handshakeStatus: int
    const decoded: Buffer
    const underDecoded: Buffer
    const sendBuf: Buffer
    ghost var head: bytes            // the handshake messages sent
    ghost var pieces: seq<bytes>     // the data of every record made
    ghost const peer: seq<bytes>     // the records the peer sends
    ghost var wire: bytes            // what arrives of them behind the peer's handshake message
    ghost var taken: nat             // how many have been read
    ghost var delivered: bytes       // everything returned by Read

    constructor (wire: bytes, hmac: bytes -> bytes, ghost records: seq<bytes>)
      ensures Fresh() && Sending() && handshakeStatus == 0
      ensures pieces == [] && delivered == [] && taken == 0 && peer == records
      ensures decoded.data == underDecoded.data == [] && source.rest == wire && fresh(conn) && fresh(source)
      ensures fresh(decoded) && fresh(underDecoded) && fresh(sendBuf)
    {
      conn := new Conn();
      source := new Source(wire);
      this.hmac := hmac;
      decoded := new Buffer();
      underDecoded := new Buffer();
      sendBuf := new Buffer();
      handshakeStatus, head, pieces, taken, delivered := 0, [], [], 0, [];
      peer, this.wire := records, wire;
    }

    ghost predicate Fresh() {
      decoded != underDecoded && decoded != sendBuf && underDecoded != sendBuf
    }

    /** Every record made is on the wire behind the handshake, or waits in sendBuf until the handshake is over. */
    ghost predicate Sending()
      reads this, conn, sendBuf
    {
      && handshakeStatus in {0, 1, 8}
      && conn.sent == head + (if handshakeStatus == 8 then Records(pieces) else [])
      && sendBuf.data == if handshakeStatus == 8 then [] else Records(pieces)
    }

    method PackData(buf: Buffer, data: bytes)
      modifies this`pieces, buf
      ensures pieces == old(pieces) + [data] && buf.data == old(buf.data) + Record(data)
      ensures Flatten(pieces) == Flatten(old(pieces)) + data
      ensures Records(pieces) == Records(old(pieces)) + Record(data)
    {
      hide Records, Flatten;
      buf.Write([0x17, 3, 3]);
      buf.Write(PutU16BE(|data| % TWO_16));
      buf.Write(data);
      Associate(old(buf.data), MAGIC, PutU16BE(|data| % TWO_16));
      Associate(old(buf.data), MAGIC + PutU16BE(|data| % TWO_16), data);
      pieces := pieces + [data];
      Append(old(pieces), [data]);
      One(data);
    }

    /** After the handshake: data in records of 100 to 4195 bytes, the last one perhaps up to 2048. */
    method WriteRecords(data: bytes, picks: nat -> nat) returns (n: nat, ok: bool)
      requires Fresh() && Sending() && handshakeStatus == 8
      modifies this`pieces, conn
      ensures ok ==> Sending() && n == |data|
      ensures !ok ==> n == 0
      ensures Flatten(pieces) == Flatten(old(pieces)) + data
      ensures pieces == old(pieces) + CutAtRandom(data, picks, 0)
      ensures AllSound(old(pieces)) ==> AllSound(pieces)
    {
      hide Records, Flatten, Record;
      var buf := new Buffer();
      var b, i := data, 0;
      ghost var was := Records(pieces);
      assert data[0..] == data;
      while |b| > 2048
        invariant conn.sent == old(conn.sent) && Records(pieces) == was + buf.data
        invariant Flatten(pieces) + b == Flatten(old(pieces)) + data
        invariant pieces + CutAtRandom(b, picks, i) == old(pieces) + CutAtRandom(data, picks, 0)
        invariant AllSound(old(pieces)) ==> AllSound(pieces)
        decreases |b|
      {
        var size := RecordSize(|b|, picks(i));
        assert b == b[..size] + b[size..];
        Associate(Flatten(pieces), b[..size], b[size..]);
        Associate(was, buf.data, Record(b[..size]));
        Associate(pieces, [b[..size]], CutAtRandom(b[size..], picks, i + 1));
        PackData(buf, b[..size]);
        b := b[size..];
        i := i + 1;
      }
      if |b| > 0 {
        Associate(was, buf.data, Record(b));
        PackData(buf, b);
      }
      Associate(head, was, buf.data);
      var sent;
      sent, ok := conn.Write(buf.data);
      if ok {
        assert buf.data[..sent] == buf.data;
      }
      n := if ok then |data| else 0;
    }

    /**
     * Write.  Before the handshake is over the data becomes one record in
     * sendBuf; hello and finish stand for the two handshake messages.
     */
    method Write(data: bytes, picks: nat -> nat, hello: bytes, finish: bytes) returns (n: nat, ok: bool)
      requires Fresh() && Sending()
      modifies this`handshakeStatus, this`pieces, this`head, conn, sendBuf
      ensures ok ==> Sending()
      ensures Flatten(pieces) == Flatten(old(pieces)) + data
      ensures pieces == old(pieces) + if old(handshakeStatus) == 8 then CutAtRandom(data, picks, 0)
                                      else if data == [] then [] else [data]
      ensures AllSound(old(pieces)) && (old(handshakeStatus) == 8 || |data| < TWO_16) ==> AllSound(pieces)
      ensures handshakeStatus == if old(handshakeStatus) == 0 then 1
                                 else if old(handshakeStatus) == 1 && data == [] then 8 else old(handshakeStatus)
      ensures ok && old(handshakeStatus) == 0 ==> conn.sent == old(conn.sent) + hello
      ensures ok && old(handshakeStatus) == 1 ==>
                conn.sent == old(conn.sent) + if data == [] then finish + Records(pieces) else []
      ensures ok ==> n == |data|
    {
      hide Records, Flatten, Record, CutAtRandom;
      if handshakeStatus == 8 {
        n, ok := WriteRecords(data, picks);
        return;
      }
      if |data| > 0 {
        PackData(sendBuf, data);
      } else {
        assert Flatten(pieces) + data == Flatten(pieces) && pieces + [] == pieces;
      }
      if handshakeStatus == 0 {
        handshakeStatus := 1;
        ok := SendHead(hello, []);
        n := if ok then |data| else 0;
      } else if |data| == 0 {
        var waiting := sendBuf.data;
        sendBuf.Reset();
        handshakeStatus := 8;
        ok := SendHead(finish, waiting);
        n := 0;
      } else {
        n, ok := |data|, true;
        assert conn.sent + [] == conn.sent;
      }
    }

    /** Sends a handshake message with the records that go behind it. */
    method SendHead(message: bytes, records: bytes) returns (ok: bool)
      requires conn.sent == head + []
      modifies this`head, conn
      ensures head == old(head) + message
      ensures ok ==> conn.sent == head + records && conn.sent == old(conn.sent) + (message + records)
    {
      var sent;
      sent, ok := conn.Write(message + records);
      if ok {
        assert (message + records)[..sent] == message + records;
        assert head + [] == head;
        Associate(head, message, records);
      }
      head := head + message;
    }

    /** Everything read so far has been delivered or waits in decoded. */
    ghost predicate Honest()
      reads this, source, decoded, underDecoded
    {
      InStep(peer, wire, taken, underDecoded.data, source.rest, delivered + decoded.data)
    }

    /** The loop over the records that have come. */
    method DecodeRecords() returns (ok: bool)
      requires Fresh()
      modifies decoded, underDecoded
      ensures var o := Decode(old(underDecoded.data));
        ok == o.ok && decoded.data == old(decoded.data) + o.out && underDecoded.data == o.rest
    {
      ghost var o := Decode(underDecoded.data);
      ghost var out: bytes := [];
      while |underDecoded.data| > 5
        invariant decoded.data == old(decoded.data) + out
        invariant o == (var r := Decode(underDecoded.data); r.(out := out + r.out))
        decreases |underDecoded.data|
      {
        if underDecoded.data[..3] != [0x17, 3, 3] {
          underDecoded.Reset();
          return false;
        }
        var size: nat := U16BE(underDecoded.data[3..5]);
        if |underDecoded.data| < 5 + size {
          break;
        }
        ghost var src := underDecoded.data;
        var _ := underDecoded.Next(5);
        var d := underDecoded.Next(size);
        assert d == src[5..5 + size] && underDecoded.data == src[5 + size..];
        decoded.Write(d);
        Associate(old(decoded.data), out, d);
        Associate(out, d, Decode(src[5 + size..]).out);
        out := out + d;
      }
      ok := true;
    }

    /** The peer's handshake message, as far as it is checked: long enough, and both of its digests right. */
    predicate Greets(got: bytes) {
      && |got| >= 11 + 32 + 1 + 32
      && got[33..43] == hmac(got[11..33])
      && got[|got| - 10..] == hmac(got[..|got| - 10])
    }

    /** A server's message: a signature of ten bytes behind the random bytes, and one behind all of it. */
    ghost predicate Greeting(front: bytes, random: bytes, rest: bytes, got: bytes) {
      var signed := front + random + hmac(random) + rest;
      && |front| == 11 && |random| == 22 && |rest| >= 23 && |hmac(random)| == |hmac(signed)| == 10
      && got == signed + hmac(signed)
    }

    /** Just such messages are taken as the end of the handshake, whatever else they hold. */
    lemma GreetsExactly(got: bytes)
      ensures Greets(got) <==> exists front, random, rest :: Greeting(front, random, rest, got)
    {
      if Greets(got) {
        var front, random, rest := got[..11], got[11..33], got[43..|got| - 10];
        assert got[..|got| - 10] == front + random + hmac(random) + rest;
        assert Greeting(front, random, rest, got);
      }
      if front, random, rest :| Greeting(front, random, rest, got) {
        var signed := front + random + hmac(random) + rest;
        assert got[11..33] == random && got[33..43] == hmac(random);
        assert got[..|got| - 10] == signed && got[|got| - 10..] == hmac(signed);
      }
    }

    /**
     * Read.  Before the handshake is over one read must bring the peer's
     * message, and gives nothing to the caller; the records start behind it.
     */
    method Read(max: nat, picks: nat -> nat, hello: bytes, finish: bytes) returns (p: bytes, ok: bool)
      requires Fresh() && Sending()
      modifies this, conn, source, decoded, underDecoded, sendBuf
      ensures |p| <= max && (ok ==> delivered == old(delivered) + p)
      ensures old(handshakeStatus) == 8 ==> Sending() && handshakeStatus == 8 && conn.sent == old(conn.sent)
      ensures old(handshakeStatus) == 8 && old(Honest()) ==>
                && Honest() && wire == old(wire) && taken >= old(taken)
                && (!ok ==> source.rest == [] && decoded.data == [] && p == [] && delivered == old(delivered))
      ensures Flatten(pieces) == Flatten(old(pieces))
      ensures old(handshakeStatus) != 8 && old(decoded.data) == [] && old(source.rest) != [] && ok ==>
                && p == [] && handshakeStatus == (if old(handshakeStatus) == 0 then 1 else 8)
                && wire == source.rest && taken == old(taken)
                && decoded.data == old(decoded.data) && underDecoded.data == old(underDecoded.data)
      ensures if old(decoded.data) != [] then
                && ok && old(decoded.data) == p + decoded.data && source.rest == old(source.rest)
                && underDecoded.data == old(underDecoded.data)
              else if old(source.rest) == [] then !ok
              else
                && |source.rest| < |old(source.rest)|
                && var got := Fetched(old(source.rest), source.rest);
                   if old(handshakeStatus) == 8 then
                     var o := Decode(old(underDecoded.data) + got);
                     ok == o.ok && p + decoded.data == o.out && underDecoded.data == o.rest
                   else ok == Greets(got)
      ensures !ok ==> p == [] && delivered == old(delivered) && handshakeStatus == old(handshakeStatus)
    {
      hide Records, Flatten, Decode, InStep, Greets;
      if |decoded.data| > 0 {
        p := Take(max);
        return p, true;
      }
      var got;
      got, ok := source.Read(RELAY_BUFFER_SIZE);
      FetchedFront(got, source.rest);
      assert delivered + [] == delivered;
      if !ok {
        return [], false;
      }
      if handshakeStatus == 8 {
        ok := Refill(got);
        if !ok {
          return [], false;
        }
        p := Take(max);
        return p, true;
      }
      if !Greets(got) {
        return [], false;
      }
      wire := source.rest;
      var n, sent := Write([], picks, hello, finish);
      assert Flatten(pieces) + [] == Flatten(pieces);
      return [], true;
    }

    /** The reading of newly arrived bytes. */
    method Refill(got: bytes) returns (ok: bool)
      requires Fresh() && decoded.data == []
      modifies this`taken, decoded, underDecoded
      ensures InStep(peer, wire, old(taken), old(underDecoded.data), got + source.rest, delivered) ==>
                ok && Honest() && taken >= old(taken)
      ensures var o := Decode(old(underDecoded.data) + got);
        ok == o.ok && decoded.data == o.out && underDecoded.data == o.rest
    {
      hide InStep, Decode;
      ghost var under := underDecoded.data;
      underDecoded.Write(got);
      ok := DecodeRecords();
      if InStep(peer, wire, taken, under, got + source.rest, delivered) {
        var n := MoveOn(peer, wire, taken, under, got, source.rest, delivered);
        assert decoded.data == Decode(under + got).out;
        taken := taken + n;
      }
    }

    method Take(max: nat) returns (p: bytes)
      requires Fresh()
      modifies this`delivered, decoded
      ensures |p| <= max && delivered == old(delivered) + p && old(decoded.data) == p + decoded.data
      ensures delivered + decoded.data == old(delivered + decoded.data)
    {
      p := decoded.Read(max);
      Associate(delivered, p, decoded.data);
      delivered := delivered + p;
    }

    /** When the handshake is over and what follows is a run of the peer's records, reading can begin. */
    lemma Begins()
      requires AllSound(peer) && source.rest == wire <= Records(peer)
      requires taken == 0 && delivered == [] && decoded.data == underDecoded.data == []
      ensures Honest()
    {
      hide Record;
      assert peer[..0] == [] && peer[0..] == peer && [] + wire == wire && [] + [] == delivered;
      if peer != [] {
        RecordParts(peer[0], []);
        assert Record(peer[0]) + [] == Record(peer[0]);
      }
    }

    /** At any time what was delivered is the front of the peer's data. */
    lemma InOrder()
      requires Honest()
      ensures delivered <= Flatten(peer)
    {
      hide Records, Flatten, ShortOf;
      Split(peer, taken);
      Associate(delivered, decoded.data, Flatten(peer[taken..]));
      assert Flatten(peer) == delivered + (decoded.data + Flatten(peer[taken..]));
    }

    /**
     * Once the wire has ended and nothing is left decoded, the data of every
     * record that came whole has been delivered.
     */
    lemma NothingHeldBack(n: nat)
      requires Honest() && source.rest == [] && decoded.data == [] && n <= |peer|
      ensures Records(peer[..n]) <= wire <==> n <= taken
      ensures delivered == Flatten(peer[..taken])
    {
      hide Records, Flatten, Record;
      assert delivered + [] == delivered && underDecoded.data + [] == underDecoded.data;
      if n <= taken {
        Split(peer[..taken], n);
        assert peer[..taken][..n] == peer[..n];
        PrefixOfSum(Records(peer[..n]), Records(peer[..taken][n..]), underDecoded.data);
      } else {
        Split(peer[..n], taken);
        assert peer[..n][..taken] == peer[..taken] && peer[..n][taken..][0] == peer[taken..][0];
        FirstOf(peer[..n][taken..]);
        TooLong(Records(peer[..taken]), Records(peer[..n][taken..]), underDecoded.data);
      }
    }

    lemma FirstOf(ds: seq<bytes>)
      requires ds != []
      ensures Records(ds) == Record(ds[0]) + Records(ds[1..])
    {}
  }
}
