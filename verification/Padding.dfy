/** The padding scheme: which record sizes the n-th packet is cut into. */
module Padding {
  import opened Ints

  const CHECK_MARK: int := -1

  /** A record size, or the mark at which a packet ends if its payload is out. */
  type size = l: int | l == CHECK_MARK || 0 < l witness 1

  /** One comma-separated item of a scheme line, after splitting at '-'. */
  datatype Item = Check | Range(min: int, max: int) | Junk

  /** `lines` maps a packet number to its items. */
  datatype Factory = Factory(stop: uint32, lines: map<uint32, seq<Item>>)

  /** The size an item asks for, with `draw` standing for the random number; None for skipped items. */
  function ItemSize(item: Item, draw: nat): seq<size> {
    match item
    case Check => [CHECK_MARK]
    case Junk => []
    case Range(a, b) =>
      var lo, hi := if a > b then b else a, if a > b then a else b;
      if lo <= 0 then [] else if lo == hi then [lo] else [lo + draw % (hi - lo)]
  }

  /** The sizes asked for by the first n items, in order. */
  ghost function Sizes(items: seq<Item>, draws: nat -> nat, n: nat): seq<size>
    requires n <= |items|
  {
    if n == 0 then [] else Sizes(items, draws, n - 1) + ItemSize(items[n - 1], draws(n - 1))
  }

  /** The sizes for one packet. */
  ghost function PacketSizes(p: Factory, pkt: uint32, draws: nat -> nat): seq<size> {
    if pkt in p.lines then Sizes(p.lines[pkt], draws, |p.lines[pkt]|) else []
  }

  method GenerateRecordPayloadSizes(p: Factory, pkt: uint32, draws: nat -> nat) returns (pktSizes: seq<size>)
    ensures pktSizes == PacketSizes(p, pkt, draws)
    ensures pktSizes != [] ==> pkt in p.lines
    ensures forall l :: l in pktSizes && l != CHECK_MARK ==>
      exists a, b :: Range(a, b) in p.lines[pkt] && (a <= l <= b || b <= l <= a)
  {
    pktSizes := [];
    if pkt !in p.lines {
      return;
    }
    var items := p.lines[pkt];
    for k := 0 to |items|
      invariant pktSizes == Sizes(items, draws, k)
      invariant forall l :: l in pktSizes && l != CHECK_MARK ==>
        exists a, b :: Range(a, b) in items && (a <= l <= b || b <= l <= a)
    {
      match items[k]
      case Check =>
        pktSizes := pktSizes + [CHECK_MARK];
      case Junk =>
      case Range(a, b) =>
        var min, max := a, b;
        if min > max {
          min, max := max, min;
        }
        if !(min <= 0 || max <= 0) {
          assert Range(a, b) in items;
          if min == max {
            pktSizes := pktSizes + [min];
          } else {
            pktSizes := pktSizes + [draws(k) % (max - min) + min];
          }
        }
    }
  }

  /** Every size the scheme can ask for fits a padding frame's length field. */
  ghost predicate FitsFrames(p: Factory) {
    forall pkt, a, b :: pkt in p.lines && Range(a, b) in p.lines[pkt] ==> a < TWO_16 && b < TWO_16
  }

  // ---------------------------------------------------------------- what an item can ask for

  /** May this item ask for this size? */
  predicate Asks(item: Item, l: size) {
    match item
    case Check => l == CHECK_MARK
    case Junk => false
    case Range(a, b) => 0 < a && 0 < b && ((a <= l < b) || (b <= l < a) || a == b == l)
  }

  /** Over all draws, a range comes to every size from its lower end to below its upper one, and to no other. */
  lemma RangeReach(a: int, b: int, l: size)
    ensures (exists draw: nat :: ItemSize(Range(a, b), draw) == [l]) <==> Asks(Range(a, b), l)
  {
    hide ItemSize;
    var lo := if a > b then b else a;
    if 0 < lo <= l {
      RangeDraw(a, b, l - lo);
    }
    if draw: nat :| ItemSize(Range(a, b), draw) == [l] {
      RangeDraw(a, b, draw);
    }
  }

  lemma Remainder(draw: nat, width: nat)
    requires width > 0
    ensures draw % width < width && (draw < width ==> draw % width == draw)
  {}

  lemma RangeDraw(a: int, b: int, draw: nat)
    ensures var lo, hi := if a > b then b else a, if a > b then a else b;
      if lo <= 0 then ItemSize(Range(a, b), draw) == []
      else if lo == hi then ItemSize(Range(a, b), draw) == [lo]
      else
        && |ItemSize(Range(a, b), draw)| == 1 && lo <= ItemSize(Range(a, b), draw)[0] < hi
        && (draw < hi - lo ==> ItemSize(Range(a, b), draw)[0] == lo + draw)
  {
    var lo, hi := if a > b then b else a, if a > b then a else b;
    if 0 < lo < hi {
      Remainder(draw, hi - lo);
      var r := draw % (hi - lo);
      assert ItemSize(Range(a, b), draw) == [lo + r];
    }
  }

  /** An item counts for one size, unless it is unreadable or a range that is not positive. */
  predicate Counts(item: Item) {
    match item
    case Check => true
    case Junk => false
    case Range(a, b) => a > 0 && b > 0
  }

  function Counting(items: seq<Item>): seq<Item> {
    if items == [] then []
    else Counting(items[..|items| - 1]) + if Counts(items[|items| - 1]) then [items[|items| - 1]] else []
  }

  /** Each size is one that its item may ask for. */
  ghost predicate AsAsked(sizes: seq<size>, items: seq<Item>) {
    |sizes| == |items| && forall j :: 0 <= j < |items| ==> Asks(items[j], sizes[j])
  }

  lemma AskedMore(sizes: seq<size>, items: seq<Item>, more: seq<size>, item: Item)
    requires AsAsked(sizes, items)
    requires if Counts(item) then |more| == 1 && Asks(item, more[0]) else more == []
    ensures AsAsked(sizes + more, items + if Counts(item) then [item] else [])
  {
    hide Asks;
  }

  lemma ItemAsks(item: Item, draw: nat)
    ensures var more := ItemSize(item, draw);
      if Counts(item) then |more| == 1 && Asks(item, more[0]) else more == []
  {
    hide ItemSize;
    match item
    case Range(a, b) => RangeDraw(a, b, draw);
    case _ => PlainItem(item, draw);
  }

  lemma PlainItem(item: Item, draw: nat)
    ensures item.Check? ==> ItemSize(item, draw) == [CHECK_MARK]
    ensures item.Junk? ==> ItemSize(item, draw) == []
  {}

  /** There is one size for each item that counts, in their order: its check mark, or a size from its range. */
  lemma {:induction false} SizesFollowItems(items: seq<Item>, draws: nat -> nat)
    ensures AsAsked(Sizes(items, draws, |items|), Counting(items))
    decreases |items|
  {
    hide AsAsked, ItemSize, Counts;
    if items == [] {
      NothingAsked();
    } else {
      var n := |items| - 1;
      SizesFollowItems(items[..n], draws);
      SizesOfFront(items, draws, n);
      ItemAsks(items[n], draws(n));
      AskedMore(Sizes(items, draws, n), Counting(items[..n]), ItemSize(items[n], draws(n)), items[n]);
    }
  }

  lemma NothingAsked()
    ensures AsAsked([], [])
  {}

  lemma {:induction false} SizesOfFront(items: seq<Item>, draws: nat -> nat, n: nat)
    requires n <= |items|
    ensures Sizes(items[..n], draws, n) == Sizes(items, draws, n)
  {
    SizesOfMore(items[..n], items, draws, n);
  }

  lemma {:induction false} SizesOfMore(front: seq<Item>, items: seq<Item>, draws: nat -> nat, n: nat)
    requires n <= |front| && front <= items
    ensures Sizes(front, draws, n) == Sizes(items, draws, n)
  {
    hide ItemSize;
    if n > 0 {
      SizesOfMore(front, items, draws, n - 1);
    }
  }
}
