/** The anytls frame format and how a receive loop cuts a byte stream into frames. */
module Frames {
  import opened Bytes
  import opened Ints

  const CMD_WASTE: byte := 0
  const CMD_SYN: byte := 1
  const CMD_PSH: byte := 2
  const CMD_FIN: byte := 3
  const CMD_SETTINGS: byte := 4
  const CMD_ALERT: byte := 5
  const CMD_UPDATE_PADDING: byte := 6
  const CMD_SYNACK: byte := 7
  const CMD_HEART_REQUEST: byte := 8
  const CMD_HEART_RESPONSE: byte := 9
  const CMD_SERVER_SETTINGS: byte := 10

  const HEADER: nat := 7

  datatype Frame = Frame(cmd: byte, sid: uint32, data: bytes)

  function Header(cmd: byte, sid: uint32, length: uint16): (h: bytes)
    ensures |h| == HEADER
  {
    [cmd] + PutU32BE(sid) + PutU16BE(length)
  }

  /** What writeDataFrame and writeControlFrame assemble: the length is cut to 16 bits. */
  function Encode(f: Frame): (w: bytes)
    ensures |w| == HEADER + |f.data|
  {
    Header(f.cmd, f.sid, |f.data| % TWO_16) + f.data
  }

  function EncodeAll(fs: seq<Frame>): bytes {
    if fs == [] then [] else EncodeAll(fs[..|fs| - 1]) + Encode(fs[|fs| - 1])
  }

  /** The commands whose length field a receive loop honours. */
  predicate HasBody(cmd: byte) {
    cmd in {CMD_PSH, CMD_SYNACK, CMD_WASTE, CMD_SETTINGS, CMD_ALERT, CMD_UPDATE_PADDING, CMD_SERVER_SETTINGS}
  }

  /** Frames that survive the wire. */
  predicate Sound(f: Frame) {
    |f.data| < TWO_16 && (HasBody(f.cmd) || f.data == [])
  }

  datatype Parsed = Short | Got(frame: Frame, rest: bytes)

  /** One frame read off the front of w, as one round of recvLoop reads it. */
  function ParseOne(w: bytes): (p: Parsed)
    ensures p.Got? ==> |p.rest| + HEADER <= |w|
  {
    if |w| < HEADER then Short else
      var n := if HasBody(w[0]) then U16BE(w[5..]) else 0;
      if |w| < HEADER + n then Short
      else Got(Frame(w[0], U32BE(w[1..]), w[HEADER..HEADER + n]), w[HEADER + n..])
  }

  function Parse(w: bytes): seq<Frame>
    decreases |w|
  {
    match ParseOne(w)
    case Short => []
    case Got(f, rest) => [f] + Parse(rest)
  }

  /** The bytes left when no further whole frame can be read. */
  function Leftover(w: bytes): bytes
    decreases |w|
  {
    match ParseOne(w)
    case Short => w
    case Got(_, rest) => Leftover(rest)
  }

  lemma HeaderFields(cmd: byte, sid: uint32, length: uint16, w: bytes)
    ensures var h := Header(cmd, sid, length) + w;
      h[0] == cmd && U32BE(h[1..]) == sid && U16BE(h[5..]) == length && h[HEADER..] == w
  {
    hide U32BE, PutU32BE, U16BE, PutU16BE;
    var h := Header(cmd, sid, length) + w;
    RoundTrip32(sid, PutU16BE(length) + w);
    RoundTrip16(length, w);
    assert h[1..] == PutU32BE(sid) + (PutU16BE(length) + w);
    assert h[5..] == PutU16BE(length) + w;
  }

  /** A frame comes back whole exactly when its length fits and its command may carry it. */
  lemma EncodeParses(f: Frame, w: bytes)
    ensures ParseOne(Encode(f) + w) == Got(f, w) <==> Sound(f)
  {
    var n := |f.data| % TWO_16;
    assert Encode(f) + w == Header(f.cmd, f.sid, n) + (f.data + w);
    HeaderFields(f.cmd, f.sid, n, f.data + w);
    if Sound(f) {
      assert (f.data + w)[..|f.data|] == f.data && (f.data + w)[|f.data|..] == w;
    }
  }

  lemma {:induction false} EncodeAllAppend(fs: seq<Frame>, gs: seq<Frame>)
    ensures EncodeAll(fs + gs) == EncodeAll(fs) + EncodeAll(gs)
  {
    hide Encode;
    if gs == [] {
      assert fs + gs == fs;
    } else {
      var n := |gs| - 1;
      assert (fs + gs)[..|fs + gs| - 1] == fs + gs[..n];
      EncodeAllAppend(fs, gs[..n]);
    }
  }

  lemma EncodeAllOne(f: Frame)
    ensures EncodeAll([f]) == Encode(f)
  {}

  lemma EncodeAllHead(fs: seq<Frame>)
    requires fs != []
    ensures EncodeAll(fs) == Encode(fs[0]) + EncodeAll(fs[1..])
  {
    EncodeAllAppend([fs[0]], fs[1..]);
    EncodeAllOne(fs[0]);
    assert [fs[0]] + fs[1..] == fs;
  }

  lemma ParseStep(f: Frame, w: bytes)
    requires Sound(f)
    ensures Parse(Encode(f) + w) == [f] + Parse(w)
    ensures Leftover(Encode(f) + w) == Leftover(w)
  {
    hide Encode, ParseOne, Sound;
    EncodeParses(f, w);
  }

  /** Whole sound frames on the wire are read back one by one, with nothing left. */
  lemma {:induction false} ParseEncodeAll(fs: seq<Frame>, w: bytes)
    requires forall f :: f in fs ==> Sound(f)
    ensures Parse(EncodeAll(fs) + w) == fs + Parse(w)
    ensures Leftover(EncodeAll(fs) + w) == Leftover(w)
    decreases |fs|
  {
    hide Encode, Parse, Leftover, Sound;
    if fs == [] {
      assert EncodeAll(fs) + w == w;
      assert fs + Parse(w) == Parse(w);
    } else {
      hide EncodeAll;
      EncodeAllHead(fs);
      var tail := EncodeAll(fs[1..]) + w;
      assert EncodeAll(fs) + w == Encode(fs[0]) + tail;
      ParseStep(fs[0], tail);
      ParseEncodeAll(fs[1..], w);
      assert [fs[0]] + fs[1..] == fs;
    }
  }

  // ---------- waste frames ----------

  /** A padding frame announcing l bytes, as writeConn builds it. */
  function WasteBytes(l: nat): bytes {
    Header(CMD_WASTE, 0, l % TWO_16) + Zeros(l)
  }

  lemma ZerosParse(n: nat)
    requires HEADER <= n
    ensures ParseOne(Zeros(n)) == Got(Frame(CMD_WASTE, 0, []), Zeros(n - HEADER))
  {
    var z := Zeros(n);
    assert U16BE(z[5..]) == 0 && U32BE(z[1..]) == 0;
    assert z[HEADER..HEADER] == [] && z[HEADER..] == Zeros(n - HEADER);
  }

  lemma TooShort(w: bytes)
    requires |w| < HEADER
    ensures Parse(w) == [] && Leftover(w) == w
  {}

  lemma ZerosStep(n: nat)
    requires HEADER <= n
    ensures Leftover(Zeros(n)) == Leftover(Zeros(n - HEADER))
    ensures Parse(Zeros(n)) == [Frame(CMD_WASTE, 0, [])] + Parse(Zeros(n - HEADER))
  {
    ZerosParse(n);
    hide ParseOne, Zeros;
  }

  /** Runs of zero bytes are empty waste frames of seven bytes each. */
  lemma {:induction false} ZerosLeftover(n: nat)
    ensures Leftover(Zeros(n)) == Zeros(n % HEADER)
    ensures forall f :: f in Parse(Zeros(n)) ==> f.cmd == CMD_WASTE
  {
    hide Parse, Leftover, Zeros;
    if n >= HEADER {
      ZerosStep(n);
      ZerosLeftover(n - HEADER);
    } else {
      TooShort(Zeros(n));
    }
  }

  lemma Sevens(k: nat)
    ensures TWO_16 * k % HEADER == 0 <==> k % HEADER == 0
  {
    assert TWO_16 * k == HEADER * (9362 * k) + 2 * k;
    assert TWO_16 * k % HEADER == 2 * k % HEADER;
  }

  /** The frame read from such a padding frame leaves whole multiples of 65536 zero bytes. */
  lemma WasteRest(l: nat)
    ensures Leftover(WasteBytes(l)) == Leftover(Zeros(TWO_16 * (l / TWO_16)))
  {
    hide U16BE, U32BE, Header;
    var n, z := l % TWO_16, Zeros(l);
    HeaderFields(CMD_WASTE, 0, n, z);
    assert z[n..] == Zeros(l - n);
    assert ParseOne(WasteBytes(l)).rest == Zeros(l - n);
  }

  /** Padding keeps the stream aligned exactly when it overflows 16 bits a multiple of seven times. */
  lemma WasteAligned(l: nat)
    ensures Leftover(WasteBytes(l)) == [] <==> l / TWO_16 % HEADER == 0
  {
    hide Leftover, Zeros, WasteBytes;
    WasteRest(l);
    ZerosLeftover(TWO_16 * (l / TWO_16));
    Sevens(l / TWO_16);
  }

  /** Of the commands there are, just four have no body: SYN, FIN and the two heartbeats. */
  lemma BodylessMisread(f: Frame, w: bytes)
    requires 0 < |f.data| < TWO_16
    ensures ParseOne(Encode(f) + w) == Got(f, w) <==> f.cmd <= 10 && f.cmd !in {1, 3, 8, 9}
    ensures f.cmd in {1, 3, 8, 9} || f.cmd > 10 ==>
              ParseOne(Encode(f) + w) == Got(Frame(f.cmd, f.sid, []), f.data + w)
  {
    hide Encode;
    EncodeParses(f, w);
    if !HasBody(f.cmd) {
      BodySkipped(f, w);
    }
  }

  lemma BodySkipped(f: Frame, w: bytes)
    requires !HasBody(f.cmd)
    ensures ParseOne(Encode(f) + w) == Got(Frame(f.cmd, f.sid, []), f.data + w)
  {
    hide U16BE, U32BE;
    var n := |f.data| % TWO_16;
    assert Encode(f) + w == Header(f.cmd, f.sid, n) + (f.data + w);
    HeaderFields(f.cmd, f.sid, n, f.data + w);
  }
}
