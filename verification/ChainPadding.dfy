/** How much padding auth_chain_a and auth_chain_b put into a frame: drawn from a generator seeded by the hash chain. */
module ChainPadding {
  import opened Bytes
  import opened Ints
  import opened XorShift

  /** auth_chain_b also consults two sorted lists of frame sizes. */
  datatype Rule = RuleA | RuleB(sizes: seq<int>, sizes2: seq<int>, overhead: nat)

  /** A padding length, and the generator as it stands afterwards. */
  datatype Pad = Pad(n: int, gen: Gen)

  function Tiers(length: nat, g: Gen): Pad {
    var r := g.Output();
    Pad(if length > 1300 then r % 31 else if length > 900 then r % 127 else if length > 400 then r % 521 else r % 1021,
        g.Step())
  }

  /** How many sizes at the front are below x; in a sorted list, the first place with one that is not. */
  function FirstAtLeast(sizes: seq<int>, x: int): (i: nat)
    ensures i <= |sizes|
  {
    if sizes == [] || sizes[0] >= x then 0 else 1 + FirstAtLeast(sizes[1..], x)
  }

  ghost predicate Ordered(s: seq<int>) {
    forall i, j :: 0 <= i < j < |s| ==> s[i] <= s[j]
  }

  ghost predicate SizeList(s: seq<int>) {
    s != [] && Ordered(s) && forall i :: 0 <= i < |s| ==> 0 <= s[i] < 1440
  }

  /** The lists are not empty, so that drawing a place in them is defined. */
  predicate Usable(rule: Rule) {
    rule.RuleB? ==> rule.sizes != [] && rule.sizes2 != []
  }

  ghost predicate WellFormed(rule: Rule) {
    Usable(rule) && (rule.RuleB? ==> SizeList(rule.sizes) && SizeList(rule.sizes2))
  }

  lemma {:induction false} AtLeastFrom(s: seq<int>, x: int, j: nat)
    requires Ordered(s) && FirstAtLeast(s, x) <= j < |s|
    ensures s[j] >= x
  {
    if s[0] < x {
      AtLeastFrom(s[1..], x, j - 1);
    }
  }

  lemma {:induction false} FirstIs(s: seq<int>, x: int, i: nat)
    requires Ordered(s) && i <= |s|
    requires i > 0 ==> s[i - 1] < x
    requires i < |s| ==> s[i] >= x
    ensures FirstAtLeast(s, x) == i
  {
    if i > 0 {
      assert s[0] <= s[i - 1];
      FirstIs(s[1..], x, i - 1);
    }
  }

  /** One look into a list: a size at or behind the first that fits, or none. */
  function Pick(sizes: seq<int>, x: int, r: nat): int
    requires sizes != []
  {
    FirstAtLeast(sizes, x) + r % |sizes|
  }

  /** The padding for data of this length, drawn after seeding with the hash. */
  function PaddingFrom(rule: Rule, length: nat, g: Gen): Pad
    requires Usable(rule)
  {
    match rule
    case RuleA => Tiers(length, g)
    case RuleB(sizes, sizes2, overhead) =>
      var x := length + overhead;
      var p := Pick(sizes, x, g.Output());
      if p < |sizes| then Pad(sizes[p] - length - overhead, g.Step())
      else
        var g2 := g.Step();
        var q := Pick(sizes2, x, g2.Output());
        if q < |sizes2| then Pad(sizes2[q] - length - overhead, g2.Step())
        else if q < FirstAtLeast(sizes2, x) + |sizes2| - 1 then Pad(0, g2.Step())
        else Tiers(length, g2.Step())
  }

  predicate Unpadded(rule: Rule, length: nat) {
    if rule.RuleA? then length > 1440 else length >= 1440
  }

  /** Padding depends on the length and on all of the hash but its first two bytes. */
  function Padding(rule: Rule, tail: bytes, length: nat): Pad
    requires |tail| >= 14 && Usable(rule)
  {
    if Unpadded(rule, length) then Pad(0, Gen(0, 0)) else PaddingFrom(rule, length, SeededWithLength(tail, length))
  }

  /** Where the data starts within the padding. */
  function StartPos(n: nat, g: Gen): (p: nat)
    ensures p <= n
  {
    if n == 0 then 0 else g.Output() % 8589934609 % n
  }

  /** Padding is never negative, and with at most 2800 bytes of data the sum stays below 4096. */
  lemma PaddingBounds(rule: Rule, tail: bytes, length: nat)
    requires |tail| >= 14 && WellFormed(rule)
    ensures 0 <= Padding(rule, tail, length).n
    ensures length <= 2800 ==> length + Padding(rule, tail, length).n < 4096
    ensures length < 1440 ==> length + Padding(rule, tail, length).n <= 1440 + 1020
  {
    hide SeededWithLength, Gen.Output, Gen.Step, FirstAtLeast;
    if !Unpadded(rule, length) && rule.RuleB? {
      var g := SeededWithLength(tail, length);
      var x := length + rule.overhead;
      ListBounds(rule.sizes, x, g.Output());
      ListBounds(rule.sizes2, x, g.Step().Output());
    }
  }

  lemma ListBounds(s: seq<int>, x: int, r: nat)
    requires SizeList(s)
    ensures Pick(s, x, r) >= 0
    ensures Pick(s, x, r) < |s| ==> x <= s[Pick(s, x, r)] < 1440
  {
    var p := Pick(s, x, r);
    if p < |s| {
      AtLeastFrom(s, x, p);
    }
  }

  // ---------------------------------------------------------------- the methods

  /** sort.Search: binary search for the first size that is at least x. */
  method Search(s: seq<int>, x: int) returns (i: nat)
    requires Ordered(s)
    ensures i == FirstAtLeast(s, x)
  {
    i := 0;
    var j := |s|;
    while i < j
      invariant 0 <= i <= j <= |s|
      invariant i > 0 ==> s[i - 1] < x
      invariant j < |s| ==> s[j] >= x
    {
      var h := (i + j) / 2;
      if s[h] < x {
        i := h + 1;
      } else {
        j := h;
      }
    }
    FirstIs(s, x, i);
  }

  method DrawTiers(length: nat, random: XorShift128Plus) returns (n: int)
    modifies random
    ensures Pad(n, random.State()) == Tiers(length, old(random.State()))
  {
    hide Gen.Output, Gen.Step;
    var r := random.Next();
    n := if length > 1300 then r % 31 else if length > 900 then r % 127 else if length > 400 then r % 521 else r % 1021;
  }

  /** getRandLength of both protocols; unless the data is too long, it seeds and leaves the length in the hash. */
  method GetRandLength(rule: Rule, length: nat, lastHash: array<byte>, random: XorShift128Plus) returns (n: int)
    requires lastHash.Length == 16 && WellFormed(rule)
    modifies lastHash, random
    ensures n == Padding(rule, old(lastHash[2..]), length).n >= 0
    ensures n > 0 ==> random.State() == Padding(rule, old(lastHash[2..]), length).gen
    ensures lastHash[2..] == old(lastHash[2..])
    ensures lastHash[..] == if Unpadded(rule, length) then old(lastHash[..]) else WithLength(old(lastHash[..]), length)
  {
    hide SeededWithLength, Gen.Output, Gen.Step, FirstAtLeast;
    PaddingBounds(rule, lastHash[2..], length);
    match rule
    case RuleA =>
      if length > 1440 {
        return 0;
      }
      var _ := random.InitFromBinAndLength(lastHash, length);
      assert lastHash[2..] == lastHash[..][2..];
      n := DrawTiers(length, random);
    case RuleB(sizes, sizes2, overhead) =>
      if length >= 1440 {
        return 0;
      }
      var _ := random.InitFromBinAndLength(lastHash, length);
      assert lastHash[2..] == lastHash[..][2..];
      n := DrawFromLists(sizes, sizes2, overhead, length, random);
  }

  method DrawFromLists(sizes: seq<int>, sizes2: seq<int>, overhead: nat, length: nat, random: XorShift128Plus)
    returns (n: int)
    requires SizeList(sizes) && SizeList(sizes2)
    modifies random
    ensures Pad(n, random.State()) == PaddingFrom(RuleB(sizes, sizes2, overhead), length, old(random.State()))
  {
    hide Gen.Output, Gen.Step, FirstAtLeast;
    var pos := Search(sizes, length + overhead);
    var r := random.Next();
    var finalPos := pos + r % |sizes|;
    if finalPos < |sizes| {
      return sizes[finalPos] - length - overhead;
    }
    pos := Search(sizes2, length + overhead);
    r := random.Next();
    finalPos := pos + r % |sizes2|;
    if finalPos < |sizes2| {
      return sizes2[finalPos] - length - overhead;
    }
    if finalPos < pos + |sizes2| - 1 {
      return 0;
    }
    n := DrawTiers(length, random);
  }

  // ---------------------------------------------------------------- the size lists

  function InsertSorted(s: seq<int>, x: int): seq<int> {
    if s == [] || x <= s[0] then [x] + s else [s[0]] + InsertSorted(s[1..], x)
  }

  /** sort.Ints. */
  function Sort(s: seq<int>): seq<int> {
    if s == [] then [] else InsertSorted(Sort(s[1..]), s[0])
  }

  lemma {:induction false} InsertAbove(s: seq<int>, x: int, lo: int)
    requires lo <= x && forall i :: 0 <= i < |s| ==> lo <= s[i]
    ensures forall i :: 0 <= i < |InsertSorted(s, x)| ==> lo <= InsertSorted(s, x)[i]
  {
    if s != [] && x > s[0] {
      InsertAbove(s[1..], x, lo);
    }
  }

  lemma {:induction false} InsertOrdered(s: seq<int>, x: int)
    requires Ordered(s)
    ensures Ordered(InsertSorted(s, x))
  {
    if s != [] && x > s[0] {
      InsertOrdered(s[1..], x);
      InsertAbove(s[1..], x, s[0]);
    }
  }

  lemma {:induction false} InsertSame(s: seq<int>, x: int)
    ensures multiset(InsertSorted(s, x)) == multiset(s) + multiset{x}
  {
    if s != [] && x > s[0] {
      InsertSame(s[1..], x);
      assert s == [s[0]] + s[1..];
    }
  }

  lemma {:induction false} SortSorts(s: seq<int>)
    ensures Ordered(Sort(s)) && multiset(Sort(s)) == multiset(s)
  {
    hide Ordered, InsertSorted;
    if s == [] {
      NothingOrdered();
    } else {
      SortSorts(s[1..]);
      InsertOrdered(Sort(s[1..]), s[0]);
      InsertSame(Sort(s[1..]), s[0]);
      assert s == [s[0]] + s[1..];
    }
  }

  lemma NothingOrdered()
    ensures Ordered([])
  {}

  /** Any other way to sort gives the same list. */
  lemma {:induction false} SortIsTheOnlyOne(s: seq<int>, t: seq<int>)
    requires Ordered(t) && multiset(t) == multiset(s)
    ensures t == Sort(s)
  {
    SortSorts(s);
    OrderedUnique(Sort(s), t);
  }

  lemma {:induction false} OrderedUnique(s: seq<int>, t: seq<int>)
    requires Ordered(s) && Ordered(t) && multiset(s) == multiset(t)
    ensures s == t
  {
    hide Ordered;
    assert |s| == |multiset(s)| && |t| == |multiset(t)|;
    if s != [] {
      TailOf(s);
      TailOf(t);
      FirstIsLeast(s, t[0]);
      FirstIsLeast(t, s[0]);
      OrderedUnique(s[1..], t[1..]);
      Rejoin(s, t);
    }
  }

  lemma Rejoin(s: seq<int>, t: seq<int>)
    requires s != [] && t != [] && s[0] == t[0] && s[1..] == t[1..]
    ensures s == t
  {
    assert s == [s[0]] + s[1..] && t == [t[0]] + t[1..];
  }

  lemma TailOf(s: seq<int>)
    requires Ordered(s) && s != []
    ensures Ordered(s[1..])
    ensures s[0] in multiset(s) && multiset(s[1..]) == multiset(s) - multiset{s[0]}
  {
    assert s == [s[0]] + s[1..];
  }

  lemma FirstIsLeast(s: seq<int>, x: int)
    requires Ordered(s) && x in multiset(s)
    ensures s != [] && s[0] <= x
  {
    assert x in s;
  }

  /** The sizes n draws in a row give. */
  function Drawn(g: Gen, n: nat): (sizes: seq<int>)
    ensures |sizes| == n && forall i :: 0 <= i < n ==> 0 <= sizes[i] < 1440
  {
    if n == 0 then [] else Drawn(g, n - 1) + [Steps(g, n - 1).Output() % 2340 % 2040 % 1440]
  }

  /** The rule of auth_chain_b that two ends with one key both arrive at. */
  function RuleOf(key: bytes, overhead: nat): Rule
    requires |key| >= 16
  {
    var g := Seeded(key);
    var n := g.Output() % 8 + 4;
    var g2 := Steps(g.Step(), n);
    RuleB(Sort(Drawn(g.Step(), n)), Sort(Drawn(g2.Step(), g2.Output() % 16 + 8)), overhead)
  }

  /** The lists are sorted, of 4 to 11 and 8 to 23 sizes below 1440. */
  lemma RuleIsWellFormed(key: bytes, overhead: nat)
    requires |key| >= 16
    ensures var rule := RuleOf(key, overhead);
      WellFormed(rule) && 4 <= |rule.sizes| <= 11 && 8 <= |rule.sizes2| <= 23
  {
    hide Gen.Output, Gen.Step, Steps, Seeded, Drawn, Sort, SizeList;
    var g := Seeded(key);
    var n := g.Output() % 8 + 4;
    var g2 := Steps(g.Step(), n);
    SortedList(Drawn(g.Step(), n));
    SortedList(Drawn(g2.Step(), g2.Output() % 16 + 8));
  }

  lemma SortedList(drawn: seq<int>)
    requires drawn != [] && forall i :: 0 <= i < |drawn| ==> 0 <= drawn[i] < 1440
    ensures SizeList(Sort(drawn)) && |Sort(drawn)| == |drawn|
  {
    hide Sort;
    var sizes := Sort(drawn);
    SortSorts(drawn);
    assert |multiset(sizes)| == |multiset(drawn)|;
    forall i | 0 <= i < |sizes|
      ensures 0 <= sizes[i] < 1440
    {
      assert sizes[i] in multiset(drawn);
    }
  }

  /** The loop that fills one list with sizes below 1440, and sorts it. */
  method DrawSizes(count: nat, random: XorShift128Plus) returns (sizes: seq<int>)
    modifies random
    ensures sizes == Sort(Drawn(old(random.State()), count)) && random.State() == Steps(old(random.State()), count)
  {
    hide Gen.Output, Gen.Step, Sort;
    var drawn: seq<int> := [];
    var length := count;
    while length > 0
      invariant |drawn| + length == count
      invariant drawn == Drawn(old(random.State()), |drawn|) && random.State() == Steps(old(random.State()), |drawn|)
    {
      var r := random.Next();
      drawn := drawn + [r % 2340 % 2040 % 1440];
      length := length - 1;
    }
    sizes := Sort(drawn);
  }

  /** initDataSize: the lists a key gives, or a panic when the key is shorter than 16 bytes. */
  method InitDataSize(key: bytes, overhead: nat, random: XorShift128Plus) returns (rule: Rule, ok: bool)
    modifies random
    ensures ok <==> |key| >= 16
    ensures ok ==> rule == RuleOf(key, overhead) && WellFormed(rule)
  {
    hide Gen.Output, Gen.Step, Steps, Seeded, Drawn, Sort, WellFormed;
    ok := random.InitFromBin(key);
    if !ok {
      return RuleA, false;
    }
    var length := random.Next();
    var sizes := DrawSizes(length % 8 + 4, random);
    length := random.Next();
    var sizes2 := DrawSizes(length % 16 + 8, random);
    rule := RuleB(sizes, sizes2, overhead);
    RuleIsWellFormed(key, overhead);
  }

  // ---------------------------------------------------------------- which lengths are drawn

  /** The remainder of the number drawn: below 1021, 521, 127 or 31, the less the longer the data. */
  lemma TierIsRemainder(length: nat, g: Gen) returns (q: nat)
    ensures var p, m := Tiers(length, g),
              if length <= 400 then 1021 else if length <= 900 then 521 else if length <= 1300 then 127 else 31;
      0 <= p.n < m && g.Output() == q * m + p.n && p.gen == g.Step()
  {
    hide Gen.Output, Gen.Step;
    var r := g.Output();
    q := if length <= 400 then r / 1021 else if length <= 900 then r / 521
         else if length <= 1300 then r / 127 else r / 31;
  }

  /**
   * Padding from the lists brings data and overhead up to a size in the first
   * one, drawn from the sizes that fit, those before place i being too small;
   * else to a size in the second one, with a draw of its own.
   */
  lemma ListedSize(rule: Rule, length: nat, g: Gen, i: nat, j: nat)
    requires rule.RuleB? && WellFormed(rule)
    requires Fitting(rule.sizes, length + rule.overhead, i) && Fitting(rule.sizes2, length + rule.overhead, j)
    ensures var x, p := length + rule.overhead, PaddingFrom(rule, length, g);
      var m, n := i + g.Output() % |rule.sizes|, j + g.Step().Output() % |rule.sizes2|;
      if m < |rule.sizes| then x + p.n == rule.sizes[m] && p.gen == g.Step()
      else if n < |rule.sizes2| then x + p.n == rule.sizes2[n] && p.gen == g.Step().Step()
      else if n < j + |rule.sizes2| - 1 then p == Pad(0, g.Step().Step())
      else p == Tiers(length, g.Step().Step())
  {
    hide Gen.Output, Gen.Step, Tiers;
    FirstIs(rule.sizes, length + rule.overhead, i);
    FirstIs(rule.sizes2, length + rule.overhead, j);
  }

  /** The sizes from place i on are those of at least x. */
  ghost predicate Fitting(s: seq<int>, x: int, i: nat) {
    i <= |s| && forall k :: 0 <= k < |s| ==> (s[k] >= x <==> k >= i)
  }

  /** The data starts at a remainder of the number drawn, before the last byte of the padding. */
  lemma StartIsRemainder(n: nat, g: Gen) returns (q: nat)
    requires n > 0
    ensures StartPos(n, g) < n && g.Output() % 8589934609 == q * n + StartPos(n, g)
  {
    hide Gen.Output;
    q := g.Output() % 8589934609 / n;
  }
}
