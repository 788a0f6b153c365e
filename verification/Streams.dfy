/** Connections as their two ends see them: writes may fail, reads may return any part of what is there. */
module Streams {
  import opened Bytes

  const RELAY_BUFFER_SIZE: nat := 20 * 1024

  /** The bytes taken from a source between two moments. */
  function Fetched(before: bytes, rest: bytes): (got: bytes)
    requires |rest| <= |before|
    ensures |got| == |before| - |rest|
  {
    before[..|before| - |rest|]
  }

  lemma FetchedFront(got: bytes, rest: bytes)
    ensures Fetched(got + rest, rest) == got
  {}

  /** A net.Conn as a writer sees it: any write may fall short, and then it fails. */
  class Conn {
    var sent: bytes
    ghost var writes: seq<bytes>     // the buffers passed to Write

    constructor ()
      ensures sent == [] && writes == []
    {
      sent, writes := [], [];
    }

    method Write(p: bytes) returns (n: nat, ok: bool)
      modifies this
      ensures n <= |p| && sent == old(sent) + p[..n] && writes == old(writes) + [p]
      ensures ok ==> n == |p|
    {
      n :| 0 <= n <= |p|;
      sent, writes := sent + p[..n], writes + [p];
      var failed := *;
      ok := n == |p| && !failed;
    }
  }

  /** A net.Conn as a reader sees it: each read returns some of the bytes still to come, or fails at their end. */
  class Source {
    var rest: bytes

    constructor (all: bytes)
      ensures rest == all
    {
      rest := all;
    }

    method Read(max: nat) returns (p: bytes, ok: bool)
      modifies this
      ensures old(rest) == p + rest && |p| <= max
      ensures ok <==> old(rest) != []
      ensures ok && max > 0 ==> |p| > 0
      ensures !ok ==> p == []
    {
      if rest == [] {
        return [], false;
      }
      if max == 0 {
        return [], true;
      }
      var n :| 1 <= n <= max && n <= |rest|;
      p, rest := rest[..n], rest[n..];
      ok := true;
    }

    /** io.ReadFull: reads until n bytes are there, however they are cut up. */
    method ReadFull(n: nat) returns (p: bytes, ok: bool)
      modifies this
      ensures ok <==> n <= |old(rest)|
      ensures ok ==> p == old(rest[..n]) && rest == old(rest[n..])
      ensures !ok ==> rest == []
    {
      p, ok := [], true;
      while |p| < n && ok
        invariant |p| <= n && old(rest) == p + rest
        invariant !ok ==> rest == [] && |p| < n
        decreases n - |p|, ok
      {
        var q: bytes;
        q, ok := Read(n - |p|);
        p := p + q;
      }
    }
  }

  /** bytes.Buffer. */
  class Buffer {
    var data: bytes

    constructor ()
      ensures data == []
    {
      data := [];
    }

    method Write(p: bytes)
      modifies this
      ensures data == old(data) + p
    {
      data := data + p;
    }

    method Next(n: nat) returns (p: bytes)
      requires n <= |data|
      modifies this
      ensures p == old(data[..n]) && data == old(data[n..])
    {
      p, data := data[..n], data[n..];
    }

    method Read(max: nat) returns (p: bytes)
      modifies this
      ensures old(data) == p + data && |p| == if max < |old(data)| then max else |old(data)|
    {
      p := Next(if max < |data| then max else |data|);
    }

    method Reset()
      modifies this
      ensures data == []
    {
      data := [];
    }
  }
}
