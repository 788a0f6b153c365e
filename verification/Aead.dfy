/**
 * The Shadowsocks AEAD stream: chunks sealed under a counter nonce, read back
 * in reads of any size.  The cipher is an abstract pair, inverse under equal
 * nonces.
 */
module Aead {
  import opened Bytes
  import opened Ints
  import opened Options
  import opened Powers
  import opened Seqs
  import opened Streams

  const PAYLOAD_SIZE_MASK: nat := 0x3FFF
  const BUF_SIZE: nat := 17 * 1024

  datatype Cipher = Cipher(
    nonceSize: nat,
    overhead: nat,
    seal: (bytes, bytes) -> bytes,
    open: (bytes, bytes) -> Option<bytes>)

  /** What the code needs of a cipher: its nonce and its records fit the buffers, and open undoes seal. */
  ghost predicate Good(a: Cipher) {
    && a.nonceSize <= 32 && 2 + a.overhead + PAYLOAD_SIZE_MASK + a.overhead <= BUF_SIZE
    && (forall n, p :: |n| == a.nonceSize ==> |a.seal(n, p)| == |p| + a.overhead && a.open(n, a.seal(n, p)) == Some(p))
    && (forall n, c :: a.open(n, c).Some? ==> |a.open(n, c).value| + a.overhead == |c|)
  }

  // ---------------------------------------------------------------- the counter

  /** The nonce that counts k: n bytes, least significant first. */
  function Nonce(k: nat, n: nat): (b: bytes)
    ensures |b| == n
  {
    if n == 0 then [] else [k % 256] + Nonce(k / 256, n - 1)
  }

  lemma {:induction false} NonceValue(k: nat, n: nat)
    ensures LittleEndian(Nonce(k, n)) == k % Pow256(n)
  {
    if n > 0 {
      NonceValue(k / 256, n - 1);
      LowDigit(k, Pow256(n - 1));
    }
  }

  lemma LowDigit(k: nat, m: nat)
    requires m >= 1
    ensures k % (256 * m) == k % 256 + 256 * (k / 256 % m)
  {
    var q, r := k / 256 / m, k / 256 % m;
    assert k / 256 == q * m + r;
    assert k == q * (256 * m) + (256 * r + k % 256);
    DivUnique(k, 256 * m, q, 256 * r + k % 256);
  }

  /** A nonce comes again only after 256^n seals. */
  lemma NonceRepeats(j: nat, k: nat, n: nat)
    ensures Nonce(j, n) == Nonce(k, n) <==> j % Pow256(n) == k % Pow256(n)
  {
    NonceValue(j, n);
    NonceValue(k, n);
    if j % Pow256(n) == k % Pow256(n) {
      LittleEndianUnique(Nonce(j, n), Nonce(k, n));
    }
  }

  lemma LowByte(a: bytes)
    requires a != []
    ensures LittleEndian(a) % 256 == a[0] as int && LittleEndian(a) / 256 == LittleEndian(a[1..])
  {}

  lemma {:induction false} LittleEndianUnique(a: bytes, b: bytes)
    requires |a| == |b| && LittleEndian(a) == LittleEndian(b)
    ensures a == b
  {
    hide LittleEndian;
    if a != [] {
      LowByte(a);
      LowByte(b);
      LittleEndianUnique(a[1..], b[1..]);
      assert a == [a[0]] + a[1..] && b == [b[0]] + b[1..];
    }
  }

  /** Adding one: leading bytes of 255 become 0, the first other one grows, and the rest stay. */
  lemma {:induction false} NonceStep(k: nat, n: nat, i: nat, b: bytes, c: bytes)
    requires i <= n && b == Nonce(k, n) && c == Nonce(k + 1, n)
    requires forall j :: 0 <= j < i ==> b[j] == 255
    ensures forall j :: 0 <= j < i ==> c[j] == 0
    ensures i < n && b[i] != 255 ==> c[i] == b[i] + 1 && forall j :: i < j < n ==> c[j] == b[j]
  {
    if i > 0 {
      assert b[0] == 255;
      assert (k + 1) / 256 == k / 256 + 1;
      NonceStep(k / 256, n - 1, i - 1, b[1..], c[1..]);
      assert forall j :: 0 < j < n ==> c[j] == c[1..][j - 1] && b[j] == b[1..][j - 1];
    } else if n > 0 && k % 256 != 255 {
      assert (k + 1) / 256 == k / 256;
    }
  }

  /** increment, in place on the first n bytes. */
  method Increment(b: array<byte>, n: nat, ghost k: nat)
    requires n <= b.Length && b[..n] == Nonce(k, n)
    modifies b
    ensures b[..n] == Nonce(k + 1, n)
  {
    hide Nonce;
    ghost var was := b[..n];
    var i := 0;
    while i < n
      invariant 0 <= i <= n
      invariant forall j :: 0 <= j < i ==> was[j] == 255 && b[j] == 0
      invariant forall j :: i <= j < n ==> b[j] == was[j]
    {
      b[i] := (b[i] as int + 1) % 256;
      NonceStep(k, n, i, was, Nonce(k + 1, n));
      if b[i] != 0 {
        return;
      }
      i := i + 1;
    }
    NonceStep(k, n, n, was, Nonce(k + 1, n));
  }

  // ---------------------------------------------------------------- the format

  /** How many nonces a chunk takes: an empty one has only its length sealed. */
  function Uses(c: bytes): nat {
    if c == [] then 1 else 2
  }

  function Count(cs: seq<bytes>): nat {
    if cs == [] then 0 else Uses(cs[0]) + Count(cs[1..])
  }

  ghost function Record(a: Cipher, k: nat, c: bytes): bytes
    requires |c| <= PAYLOAD_SIZE_MASK
  {
    a.seal(Nonce(k, a.nonceSize), PutU16BE(|c|)) + if c == [] then [] else a.seal(Nonce(k + 1, a.nonceSize), c)
  }

  predicate Fits(cs: seq<bytes>) {
    forall i :: 0 <= i < |cs| ==> |cs[i]| <= PAYLOAD_SIZE_MASK
  }

  /** The wire of the chunks from nonce k on. */
  ghost function Records(a: Cipher, cs: seq<bytes>, k: nat): bytes
    requires Fits(cs)
    decreases |cs|
  {
    if cs == [] then [] else Record(a, k, cs[0]) + Records(a, cs[1..], k + Uses(cs[0]))
  }

  lemma {:induction false} CountSnoc(cs: seq<bytes>, c: bytes)
    ensures Count(cs + [c]) == Count(cs) + Uses(c)
    ensures Flatten(cs + [c]) == Flatten(cs) + c
  {
    hide Uses;
    if cs == [] {
      assert cs + [c] == [c] && [c][1..] == [];
    } else {
      assert (cs + [c])[1..] == cs[1..] + [c];
      CountSnoc(cs[1..], c);
      Associate(cs[0], Flatten(cs[1..]), c);
    }
  }

  lemma {:induction false} RecordsSnoc(a: Cipher, cs: seq<bytes>, c: bytes, k: nat)
    requires Fits(cs) && |c| <= PAYLOAD_SIZE_MASK
    ensures Fits(cs + [c])
    ensures Records(a, cs + [c], k) == Records(a, cs, k) + Record(a, k + Count(cs), c)
    decreases |cs|
  {
    hide Record, Uses;
    if cs == [] {
      assert cs + [c] == [c] && [c][1..] == [];
    } else {
      assert (cs + [c])[1..] == cs[1..] + [c];
      var k' := k + Uses(cs[0]);
      RecordsSnoc(a, cs[1..], c, k');
      Associate(Record(a, k, cs[0]), Records(a, cs[1..], k'), Record(a, k + Count(cs), c));
    }
  }

  // ---------------------------------------------------------------- writing

  class Writer {
    const conn: Conn
    const aead: Cipher
    const nonce: array<byte>
    ghost var chunks: seq<bytes>   // every chunk sealed so far

    constructor (aead: Cipher)
      requires Good(aead)
      ensures Valid() && fresh(conn) && fresh(nonce) && this.aead == aead && chunks == []
    {
      conn := new Conn();
      this.aead := aead;
      nonce := new byte[32](_ => 0);
      chunks := [];
      new;
      NonceZero(aead.nonceSize);
      assert nonce[..aead.nonceSize] == Nonce(0, aead.nonceSize);
    }

    /** The nonce counts the seals made. */
    ghost predicate InStep()
      reads this, nonce
    {
      && Good(aead) && nonce.Length == 32 && Fits(chunks)
      && nonce[..aead.nonceSize] == Nonce(Count(chunks), aead.nonceSize)
    }

    /** The wire holds the records of the chunks, sealed under the nonces 0, 1, 2, and so on. */
    ghost predicate Valid()
      reads this, nonce, conn
    {
      InStep() && conn.sent == Records(aead, chunks, 0)
    }

    /** A write has failed: the last record is cut, and those before it are whole. */
    ghost predicate Broken()
      reads this, nonce, conn
    {
      InStep() && chunks != []
      && Records(aead, chunks[..|chunks| - 1], 0) <= conn.sent <= Records(aead, chunks, 0)
    }

    method SealChunk(c: bytes) returns (buf: bytes)
      requires InStep() && |c| <= PAYLOAD_SIZE_MASK
      modifies this`chunks, nonce
      ensures chunks == old(chunks) + [c] && InStep()
      ensures buf == Record(aead, Count(old(chunks)), c)
    {
      hide Good, Nonce, Records;
      ghost var k := Count(chunks);
      RecordsSnoc(aead, chunks, c, 0);
      CountSnoc(chunks, c);
      NonceLength(aead);
      buf := aead.seal(nonce[..aead.nonceSize], PutU16BE(|c|));
      Increment(nonce, aead.nonceSize, k);
      if |c| > 0 {
        buf := buf + aead.seal(nonce[..aead.nonceSize], c);
        Increment(nonce, aead.nonceSize, k + 1);
      }
      chunks := chunks + [c];
    }

    method SendChunk(c: bytes) returns (ok: bool)
      requires Valid() && |c| <= PAYLOAD_SIZE_MASK
      modifies this`chunks, nonce, conn
      ensures chunks == old(chunks) + [c] && Flatten(chunks) == Flatten(old(chunks)) + c
      ensures if ok then Valid() else Broken()
    {
      hide Good, Nonce, Record, Records;
      RecordsSnoc(aead, chunks, c, 0);
      CountSnoc(chunks, c);
      var buf := SealChunk(c);
      var sent;
      sent, ok := conn.Write(buf);
      assert chunks[..|chunks| - 1] == old(chunks);
      PartSent(old(conn.sent), buf, sent);
    }

    /**
     * Seals p in chunks of at most 16383 bytes; an empty p is sent as a zero
     * chunk.  n is the length of all chunks sealed, so when the connection
     * fails it counts the whole of the chunk that was cut.
     */
    method Write(p: bytes) returns (n: nat, ok: bool)
      requires Valid()
      modifies this`chunks, nonce, conn
      ensures n <= |p| && Flatten(chunks) == Flatten(old(chunks)) + p[..n]
      ensures ok ==> n == |p| && Valid()
      ensures !ok ==> Broken()
      ensures p == [] ==> chunks == old(chunks) + [[]]
      ensures p != [] ==> chunks <= old(chunks) + Cut(p, PAYLOAD_SIZE_MASK)
      ensures p != [] && ok ==> chunks == old(chunks) + Cut(p, PAYLOAD_SIZE_MASK)
      ensures p != [] ==>
                var m := |chunks| - |old(chunks)|;
                m > 0 && n == if m * PAYLOAD_SIZE_MASK < |p| then m * PAYLOAD_SIZE_MASK else |p|
    {
      hide Good, Records, Count, Flatten, Cut;
      if |p| == 0 {
        ok := SendChunk([]);
        assert p[..0] == [];
        return 0, ok;
      }
      n, ok := 0, true;
      assert p[..0] == [] && p[0..] == p;
      while n < |p| && ok
        invariant n <= |p| && |chunks| >= |old(chunks)| && (|chunks| > |old(chunks)| <==> n > 0) && (!ok ==> n > 0)
        invariant var m := |chunks| - |old(chunks)|;
          n == if m * PAYLOAD_SIZE_MASK < |p| then m * PAYLOAD_SIZE_MASK else |p|
        invariant Flatten(chunks) == Flatten(old(chunks)) + p[..n]
        invariant if ok then Valid() else Broken()
        invariant chunks + Cut(p[n..], PAYLOAD_SIZE_MASK) == old(chunks) + Cut(p, PAYLOAD_SIZE_MASK)
        decreases |p| - n
      {
        var nr := PAYLOAD_SIZE_MASK;
        if n + nr > |p| {
          nr := |p| - n;
        }
        assert p[..n + nr] == p[..n] + p[n..n + nr];
        CutStep(p, n, PAYLOAD_SIZE_MASK);
        Associate(chunks, [p[n..n + nr]], Cut(p[n + nr..], PAYLOAD_SIZE_MASK));
        ok := SendChunk(p[n..n + nr]);
        Associate(Flatten(old(chunks)), p[..n], p[n..n + nr]);
        n := n + nr;
      }
      assert p[..|p|] == p;
      if n == |p| {
        NothingCut();
        assert p[n..] == [];
      }
    }
  }

  lemma NothingCut()
    ensures Cut([], PAYLOAD_SIZE_MASK) == []
  {}

  // ---------------------------------------------------------------- reading

  datatype Error = Eof | AuthFailed | ZeroChunk

  /** What reading one record finds: its payload, or an error. */
  datatype Next = Got(payload: bytes) | Failed(error: Error)

  /** One sealed part of a record, of this size when opened. */
  ghost function OpenPart(a: Cipher, rest: bytes, k: nat, size: nat): (r: Next)
    requires Good(a)
    ensures r.Got? ==> |r.payload| == size && size + a.overhead <= |rest|
  {
    if |rest| < size + a.overhead then Failed(Eof)
    else
      var p := a.open(Nonce(k, a.nonceSize), rest[..size + a.overhead]);
      if p.None? then Failed(AuthFailed) else Got(p.value)
  }

  /** One record from the bytes to come: its sealed length, then its sealed payload, under the nonces k and k + 1. */
  ghost function NextRecord(a: Cipher, rest: bytes, k: nat): Next
    requires Good(a)
  {
    var len := OpenPart(a, rest, k, 2);
    if len.Failed? then len
    else
      var size := U16BE(len.payload) % (PAYLOAD_SIZE_MASK + 1);
      if size == 0 then Failed(ZeroChunk) else OpenPart(a, rest[2 + a.overhead..], k + 1, size)
  }

  /** How many bytes a record with this payload takes. */
  function RecordSize(a: Cipher, payload: bytes): nat {
    2 + a.overhead + |payload| + a.overhead
  }

  lemma RecordBytes(a: Cipher, k: nat, c: bytes)
    requires Good(a) && |c| <= PAYLOAD_SIZE_MASK
    ensures |Record(a, k, c)| == if c == [] then 2 + a.overhead else RecordSize(a, c)
  {
    hide Nonce;
  }

  lemma Opens(a: Cipher, k: nat, p: bytes)
    requires Good(a)
    ensures |a.seal(Nonce(k, a.nonceSize), p)| == |p| + a.overhead
    ensures a.open(Nonce(k, a.nonceSize), a.seal(Nonce(k, a.nonceSize), p)) == Some(p)
  {}

  /** A sealed part opens under the nonce it was sealed under, as soon as it is all there. */
  lemma PartOpens(a: Cipher, k: nat, p: bytes, rest: bytes)
    requires Good(a)
    ensures a.seal(Nonce(k, a.nonceSize), p) <= rest ==> OpenPart(a, rest, k, |p|) == Got(p)
    ensures |rest| < |p| + a.overhead ==> OpenPart(a, rest, k, |p|) == Failed(Eof)
  {
    hide Nonce, Good;
    Opens(a, k, p);
    var c := a.seal(Nonce(k, a.nonceSize), p);
    if c <= rest {
      assert rest[..|c|] == c;
    }
  }

  /** What the writer sealed is what the reader opens, as soon as the whole record is there. */
  lemma HonestRecord(a: Cipher, k: nat, c: bytes, rest: bytes)
    requires Good(a) && |c| <= PAYLOAD_SIZE_MASK && |c| > 0
    requires Record(a, k, c) <= rest
    ensures NextRecord(a, rest, k) == Got(c)
  {
    hide Nonce, OpenPart, Good, U16BE;
    var len := PutU16BE(|c|);
    var head := a.seal(Nonce(k, a.nonceSize), len);
    Opens(a, k, len);
    Halves(head, a.seal(Nonce(k + 1, a.nonceSize), c), rest);
    PartOpens(a, k, len, rest);
    PartOpens(a, k + 1, c, rest[2 + a.overhead..]);
    LengthBack(|c|);
  }

  lemma LengthBack(n: uint16)
    ensures U16BE(PutU16BE(n)) == n
  {
    RoundTrip16(n, []);
    assert PutU16BE(n) + [] == PutU16BE(n);
  }

  lemma Halves(head: bytes, tail: bytes, rest: bytes)
    requires head + tail <= rest
    ensures |head| <= |rest| && rest[..|head|] == head
    ensures |tail| <= |rest| - |head| && rest[|head|..][..|tail|] == tail
  {
    var both := head + tail;
    assert rest[..|both|] == both;
    assert both[..|head|] == head && both[|head|..] == tail;
    assert rest[..|head|] == both[..|head|];
    assert rest[|head|..][..|tail|] == both[|head|..];
  }

  /** A zero chunk is an error, and a record not all there yet is the end of the stream. */
  lemma OtherRecords(a: Cipher, k: nat, c: bytes, rest: bytes)
    requires Good(a) && |c| <= PAYLOAD_SIZE_MASK
    ensures c == [] && Record(a, k, c) <= rest ==> NextRecord(a, rest, k) == Failed(ZeroChunk)
    ensures rest < Record(a, k, c) ==> NextRecord(a, rest, k) == Failed(Eof)
  {
    hide Nonce, OpenPart, Good, U16BE;
    var len := PutU16BE(|c|);
    var head := a.seal(Nonce(k, a.nonceSize), len);
    Opens(a, k, len);
    Opens(a, k + 1, c);
    PartOpens(a, k, len, rest);
    LengthBack(|c|);
    if |rest| >= |head| && (rest < Record(a, k, c) || Record(a, k, c) <= rest) {
      assert rest[..|head|] == Record(a, k, c)[..|head|] == head;
      PartOpens(a, k + 1, c, rest[2 + a.overhead..]);
    }
  }

  // ---------------------------------------------------------------- any wire

  /** Nothing opens but what was sealed under the same nonce: what the cipher is for. */
  ghost predicate Authentic(a: Cipher) {
    forall n, c :: |n| == a.nonceSize && a.open(n, c).Some? ==> c == a.seal(n, a.open(n, c).value)
  }

  /**
   * A payload that is accepted stands on the wire sealed under its nonce,
   * behind its length sealed under the one before.
   */
  lemma OnlySealed(a: Cipher, rest: bytes, k: nat) returns (len: bytes)
    requires Good(a) && Authentic(a) && NextRecord(a, rest, k).Got?
    ensures var payload := NextRecord(a, rest, k).payload;
      && |len| == 2 && 0 < |payload| == U16BE(len) % (PAYLOAD_SIZE_MASK + 1)
      && a.seal(Nonce(k, a.nonceSize), len) + a.seal(Nonce(k + 1, a.nonceSize), payload) <= rest
  {
    hide Nonce, U16BE;
    len := OpenPart(a, rest, k, 2).payload;
    var payload, at := NextRecord(a, rest, k).payload, 2 + a.overhead;
    var first, second := rest[..at], rest[at..][..|payload| + a.overhead];
    assert first == a.seal(Nonce(k, a.nonceSize), len);
    assert second == a.seal(Nonce(k + 1, a.nonceSize), payload);
    assert first + second == rest[..at + |payload| + a.overhead];
  }

  ghost predicate SealedUnder(a: Cipher, nonce: bytes, part: bytes) {
    exists p :: part == a.seal(nonce, p)
  }

  lemma PartRefused(a: Cipher, part: bytes, more: bytes, k: nat, size: nat)
    requires Good(a) && Authentic(a) && |part| == size + a.overhead
    requires !SealedUnder(a, Nonce(k, a.nonceSize), part)
    ensures OpenPart(a, part + more, k, size) == Failed(AuthFailed)
  {
    hide Nonce, Good;
    assert (part + more)[..|part|] == part;
  }

  /** A record whose length, or whose payload, was not sealed under its nonce is refused. */
  lemma ChangedIsRefused(a: Cipher, c: bytes, k: nat, part: bytes, more: bytes)
    requires Good(a) && Authentic(a) && 0 < |c| <= PAYLOAD_SIZE_MASK
    ensures |part| == 2 + a.overhead && !SealedUnder(a, Nonce(k, a.nonceSize), part) ==>
              NextRecord(a, part + more, k) == Failed(AuthFailed)
    ensures |part| == |c| + a.overhead && !SealedUnder(a, Nonce(k + 1, a.nonceSize), part) ==>
              NextRecord(a, a.seal(Nonce(k, a.nonceSize), PutU16BE(|c|)) + (part + more), k) == Failed(AuthFailed)
  {
    hide Nonce, U16BE, OpenPart, Good, Authentic, SealedUnder;
    if |part| == 2 + a.overhead && !SealedUnder(a, Nonce(k, a.nonceSize), part) {
      PartRefused(a, part, more, k, 2);
    }
    if |part| == |c| + a.overhead && !SealedUnder(a, Nonce(k + 1, a.nonceSize), part) {
      PartRefused(a, part, more, k + 1, |c|);
      var len := PutU16BE(|c|);
      var head := a.seal(Nonce(k, a.nonceSize), len);
      Opens(a, k, len);
      PartOpens(a, k, len, head + (part + more));
      assert (head + (part + more))[|head|..] == part + more;
      LengthBack(|c|);
    }
  }

  class Reader {
    const source: Source
    const aead: Cipher
    const nonce: array<byte>
    var buf: Option<bytes>
    var off: nat
    ghost var count: nat             // how many opens there have been
    ghost var ahead: seq<bytes>      // the chunks whose records are still to come
    ghost var delivered: bytes       // everything returned so far

    /** A reader of a wire that was cut anywhere. */
    constructor (aead: Cipher, wire: bytes, ghost chunks: seq<bytes>)
      requires Good(aead) && Fits(chunks) && wire <= Records(aead, chunks, 0)
      ensures Valid() && Honest() && fresh(source) && fresh(nonce)
      ensures Plain() == Flatten(chunks) && delivered == []
    {
      source := new Source(wire);
      this.aead := aead;
      nonce := new byte[32](_ => 0);
      buf, off := None, 0;
      count, ahead, delivered := 0, chunks, [];
      new;
      NonceZero(aead.nonceSize);
      assert nonce[..aead.nonceSize] == Nonce(0, aead.nonceSize);
      assert [] + [] + Flatten(chunks) == Flatten(chunks);
    }

    ghost predicate Valid()
      reads this, nonce
    {
      && Good(aead) && nonce.Length == 32 && nonce[..aead.nonceSize] == Nonce(count, aead.nonceSize)
      && (buf.Some? ==> off < |buf.value|)
    }

    /** What comes is the writer's wire from here on, though it may end early. */
    ghost predicate Honest()
      reads this, source
    {
      Fits(ahead) && source.rest <= Records(aead, ahead, count)
    }

    /** What is read but not yet returned. */
    ghost function Kept(): bytes
      requires buf.Some? ==> off <= |buf.value|
      reads this
    {
      if buf.Some? then buf.value[off..] else []
    }

    /** All that was or will be returned. */
    ghost function Plain(): bytes
      requires buf.Some? ==> off <= |buf.value|
      reads this
    {
      delivered + Kept() + Flatten(ahead)
    }

    /** The unexported read: one record, whatever the fragmentation below. */
    method ReadRecord() returns (r: Next)
      requires Valid()
      modifies this`count, this`ahead, nonce, source
      ensures Valid()
      ensures r == NextRecord(aead, old(source.rest), old(count))
      ensures r.Got? ==> 0 < |r.payload| <= PAYLOAD_SIZE_MASK
      ensures r.Got? && old(Honest()) ==>
                && old(ahead) != [] && r.payload == old(ahead)[0]
                && ahead == old(ahead)[1..] && Honest() && count == old(count) + 2
      ensures old(Honest()) && r.Failed? ==>
                && r.error != AuthFailed
                && (r.error == ZeroChunk ==> old(ahead) != [] && old(ahead)[0] == [])
                && (r.error == Eof ==> old(ahead) == [] || old(source.rest) < Record(aead, old(count), old(ahead)[0]))
    {
      hide Good, Nonce, NextRecord, Records, Record;
      ghost var all, chunks, k := source.rest, ahead, count;
      r := ReadRecordBytes();
      if r.Got? {
        ahead := if |ahead| == 0 then [] else ahead[1..];
      }
      if Fits(chunks) && all <= Records(aead, chunks, k) {
        HonestNext(aead, chunks, k, all);
      }
    }

    /** Reads one sealed part of a record and opens it under the next nonce. */
    method OpenNext(size: nat) returns (r: Next)
      requires Valid()
      modifies this`count, nonce, source
      ensures Valid()
      ensures r == OpenPart(aead, old(source.rest), old(count), size)
      ensures r.Got? ==>
                && count == old(count) + 1 && |r.payload| == size
                && size + aead.overhead <= |old(source.rest)| && source.rest == old(source.rest[size + aead.overhead..])
    {
      hide Nonce;
      var p, ok := source.ReadFull(size + aead.overhead);
      if !ok {
        return Failed(Eof);
      }
      var plain := aead.open(nonce[..aead.nonceSize], p);
      Increment(nonce, aead.nonceSize, count);
      count := count + 1;
      r := if plain.None? then Failed(AuthFailed) else Got(plain.value);
    }

    method ReadRecordBytes() returns (r: Next)
      requires Valid()
      modifies this`count, nonce, source
      ensures Valid()
      ensures r == NextRecord(aead, old(source.rest), old(count))
      ensures r.Got? ==>
                && 0 < |r.payload| <= PAYLOAD_SIZE_MASK && count == old(count) + 2
                && RecordSize(aead, r.payload) <= |old(source.rest)|
                && source.rest == old(source.rest[RecordSize(aead, r.payload)..])
    {
      hide OpenPart, Valid;
      ghost var all := source.rest;
      r := OpenNext(2);
      if r.Failed? {
        return;
      }
      var size := (r.payload[0] as int * 256 + r.payload[1]) % (PAYLOAD_SIZE_MASK + 1);
      if size == 0 {
        return Failed(ZeroChunk);
      }
      r := OpenNext(size);
      if r.Got? {
        assert all[2 + aead.overhead..][size + aead.overhead..] == all[RecordSize(aead, r.payload)..];
      }
    }

    /** Read: at most max bytes of the plaintext, in order, from one record. */
    method Read(max: nat) returns (r: Next)
      requires Valid()
      modifies this, nonce, source
      ensures Valid()
      ensures r.Got? ==> |r.payload| <= max && (max > 0 ==> |r.payload| > 0)
      ensures r.Got? ==> delivered == old(delivered) + r.payload
      ensures r.Failed? ==> delivered == old(delivered)
      ensures old(Honest()) && r.Got? ==> Honest() && Plain() == old(Plain()) && delivered <= Plain()
      ensures old(Honest()) && r.Failed? ==>
                && old(buf).None? && r.error != AuthFailed
                && (r.error == ZeroChunk ==> old(ahead) != [] && old(ahead)[0] == [])
                && (r.error == Eof ==> old(ahead) == [] || old(source.rest) < Record(aead, old(count), old(ahead)[0]))
      ensures old(buf).Some? ==>
                r.Got? && source.rest == old(source.rest) && r.payload + Kept() == old(Kept())
      ensures old(buf).None? ==>
                var next := NextRecord(aead, old(source.rest), old(count));
                if next.Failed? then r == next else r.Got? && r.payload + Kept() == next.payload
    {
      hide Good, Nonce, NextRecord, Records, Record, Flatten;
      ghost var chunks := ahead;
      if buf == None {
        r := ReadRecord();
        if r.Failed? {
          return;
        }
        FlattenFirst(chunks);
        Regroup(delivered, r.payload, Flatten(ahead));
        if max >= PAYLOAD_SIZE_MASK + aead.overhead {
          delivered := delivered + r.payload;
          PrefixOfSum(delivered, Kept(), Flatten(ahead));
          return;
        }
        buf, off := Some(r.payload), 0;
        assert r.payload[0..] == r.payload;
      }
      var p := Deliver(max);
      PrefixOfSum(delivered, Kept(), Flatten(ahead));
      r := Got(p);
    }

    /** Hands over the front of what is buffered. */
    method Deliver(max: nat) returns (p: bytes)
      requires Valid() && buf.Some?
      modifies this`buf, this`off, this`delivered
      ensures Valid() && |p| <= max && (max > 0 ==> |p| > 0)
      ensures delivered == old(delivered) + p && p + Kept() == old(Kept())
      ensures delivered + Kept() == old(delivered + Kept())
    {
      hide Good, Nonce;
      var left := buf.value[off..];
      var n := if max < |left| then max else |left|;
      p := left[..n];
      off := off + n;
      assert left == p + buf.value[off..];
      Associate(delivered, p, buf.value[off..]);
      delivered := delivered + p;
      if off == |buf.value| {
        assert buf.value[off..] == [];
        buf := None;
      }
    }
  }

  lemma FlattenFirst(cs: seq<bytes>)
    ensures cs != [] ==> Flatten(cs) == cs[0] + Flatten(cs[1..])
  {}

  lemma Regroup(a: bytes, b: bytes, c: bytes)
    ensures a + [] + (b + c) == a + b + c
    ensures a + b + [] + c == a + b + c
  {}

  /** On an honest wire the next record is the next chunk, or the stream ends, or the chunk is empty. */
  lemma HonestNext(a: Cipher, cs: seq<bytes>, k: nat, rest: bytes)
    requires Good(a) && Fits(cs) && rest <= Records(a, cs, k)
    ensures var r := NextRecord(a, rest, k);
      if r.Got? then
        && cs != [] && r.payload == cs[0] && RecordSize(a, cs[0]) <= |rest|
        && rest[RecordSize(a, cs[0])..] <= Records(a, cs[1..], k + 2)
      else
        && r.error != AuthFailed
        && (r.error == ZeroChunk ==> cs != [] && cs[0] == [])
        && (r.error == Eof ==> cs == [] || rest < Record(a, k, cs[0]))
  {
    hide Good, Nonce, NextRecord, Record;
    if cs == [] {
      NothingLeft(a, k);
    } else {
      var head := Record(a, k, cs[0]);
      PrefixSplit(rest, head, Records(a, cs[1..], k + Uses(cs[0])));
      RecordBytes(a, k, cs[0]);
      OtherRecords(a, k, cs[0], rest);
      if head <= rest && cs[0] != [] {
        HonestRecord(a, k, cs[0], rest);
      }
    }
  }

  lemma NothingLeft(a: Cipher, k: nat)
    requires Good(a)
    ensures NextRecord(a, [], k) == Failed(Eof)
  {}

  lemma {:induction false} NonceZero(n: nat)
    ensures forall i :: 0 <= i < n ==> Nonce(0, n)[i] == 0
  {
    if n > 0 {
      NonceZero(n - 1);
    }
  }

  lemma NonceLength(a: Cipher)
    requires Good(a)
    ensures a.nonceSize <= 32
  {}
}
