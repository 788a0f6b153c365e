/** What the ShadowsocksR protocols share: random draws, pieces of data, and the size of the first packet. */
module SsrBase {
  import opened Bytes
  import opened Ints
  import opened Seqs

  /** What is drawn at random for one frame: a real in [0, 1), a number, and the padding bytes. */
  datatype Draw = Draw(base: real, pick: nat, fill: nat -> byte) {
    predicate Unit() { 0.0 <= base < 1.0 }
  }

  function Intn(n: nat, pick: nat): (r: nat)
    requires n > 0
    ensures r < n
  {
    pick % n
  }

  datatype Piece = Piece(data: bytes, pad: bytes)

  function NextId(id: uint32): uint32 {
    if id == TWO_32 - 1 then 0 else id + 1
  }

  function Data(ps: seq<Piece>): bytes {
    if ps == [] then [] else ps[0].data + Data(ps[1..])
  }

  /** The data of the pieces, one by one. */
  function Parts(ps: seq<Piece>): seq<bytes> {
    seq(|ps|, i requires 0 <= i < |ps| => ps[i].data)
  }

  lemma PartsSnoc(ps: seq<Piece>, p: Piece)
    ensures Parts(ps + [p]) == Parts(ps) + [p.data]
  {}

  lemma {:induction false} DataSnoc(ps: seq<Piece>, p: Piece)
    ensures Data(ps + [p]) == Data(ps) + p.data
  {
    if ps == [] {
      assert ps + [p] == [p] && [p][1..] == [];
    } else {
      assert (ps + [p])[1..] == ps[1..] + [p];
      DataSnoc(ps[1..], p);
    }
  }

  lemma {:induction false} DataAppend(ps: seq<Piece>, qs: seq<Piece>)
    ensures Data(ps + qs) == Data(ps) + Data(qs)
  {
    if ps == [] {
      assert ps + qs == qs;
    } else {
      assert (ps + qs)[1..] == ps[1..] + qs;
      DataAppend(ps[1..], qs);
      Associate(ps[0].data, Data(ps[1..]), Data(qs));
    }
  }

  /** How many bytes go into the first, authenticated packet. */
  function HeadSize(b: bytes, default: nat): nat {
    if |b| < 2 then default
    else
      var headType := b[0] % 8;
      if headType == 1 then 7 else if headType == 4 then 19 else if headType == 3 then 4 + b[1] else default
  }

  function DataLength(b: bytes, pick: nat): (n: nat)
    ensures n <= |b|
  {
    var n := HeadSize(b, 30) + Intn(32, pick);
    if |b| < n then |b| else n
  }

  /** The head is the address the data starts with: IPv4, IPv6 or a host name with its length, and a port. */
  lemma HeadIsAddress(kind: byte, address: bytes, port: bytes, rest: bytes, default: nat)
    requires |port| == 2
    requires
      || (kind % 8 == 1 && |address| == 4)
      || (kind % 8 == 4 && |address| == 16)
      || (kind % 8 == 3 && address != [] && |address| == 1 + address[0] as int)
    ensures HeadSize([kind] + address + port + rest, default) == |[kind] + address + port|
  {
    var b := [kind] + address + port + rest;
    assert b[0] == kind && b[1] == address[0];
    assert |[kind] + address + port| == 1 + |address| + 2;
  }

  /** Data that starts with no such address. */
  lemma HeadOtherwise(b: bytes, default: nat)
    requires |b| < 2 || b[0] % 8 !in {1, 3, 4}
    ensures HeadSize(b, default) == default
  {}

  /** The first packet goes beyond the head, or beyond 30 bytes, by any number below 32 and by no other. */
  lemma HeadReach(b: bytes, n: nat)
    requires |b| >= HeadSize(b, 30) + 31
    ensures (exists pick: nat :: DataLength(b, pick) == HeadSize(b, 30) + n) <==> n < 32
    ensures b[0] % 8 !in {1, 3, 4} ==> HeadSize(b, 30) == 30
  {
    hide HeadSize;
    if b[0] % 8 !in {1, 3, 4} {
      HeadOtherwise(b, 30);
    }
    if n < 32 {
      assert DataLength(b, n) == HeadSize(b, 30) + n;
    }
  }
}
