/**
 * What the idle cleanup keeps, stated on the pool in its order (newest first):
 * an entry survives when it has not expired, or when fewer than `min` entries
 * before it survived.
 */
module CleanupSpec {
  import opened Seqs

  /** How many of the first i entries survive. */
  ghost function KeptCount(expired: seq<bool>, min: int, i: nat): (n: nat)
    requires i <= |expired|
    ensures n <= i
  {
    if i == 0 then 0 else
      var n := KeptCount(expired, min, i - 1);
      if !expired[i - 1] || n < min then n + 1 else n
  }

  ghost predicate Survives(expired: seq<bool>, min: int, i: nat)
    requires i < |expired|
  {
    !expired[i] || KeptCount(expired, min, i) < min
  }

  /** The survivors among the first i of xs, in order. */
  ghost function Kept<T>(xs: seq<T>, expired: seq<bool>, min: int, i: nat): (ys: seq<T>)
    requires i <= |xs| == |expired|
    ensures |ys| == KeptCount(expired, min, i)
  {
    if i == 0 then []
    else if Survives(expired, min, i - 1) then Kept(xs, expired, min, i - 1) + [xs[i - 1]]
    else Kept(xs, expired, min, i - 1)
  }

  /** The removed ones among the first i of xs, in order. */
  ghost function Removed<T>(xs: seq<T>, expired: seq<bool>, min: int, i: nat): seq<T>
    requires i <= |xs| == |expired|
  {
    if i == 0 then []
    else if Survives(expired, min, i - 1) then Removed(xs, expired, min, i - 1)
    else Removed(xs, expired, min, i - 1) + [xs[i - 1]]
  }

  /** At least min entries are left, unless there were fewer to begin with. */
  lemma {:induction false} EnoughKept(expired: seq<bool>, min: int, i: nat)
    requires i <= |expired|
    ensures min <= KeptCount(expired, min, i) || KeptCount(expired, min, i) == i
  {
    if i > 0 {
      EnoughKept(expired, min, i - 1);
    }
  }

  /** Nothing is lost or doubled: survivors and removed ones are the entries. */
  lemma KeptOrRemoved<T>(xs: seq<T>, expired: seq<bool>, min: int, i: nat)
    requires i <= |xs| == |expired|
    ensures multiset(Kept(xs, expired, min, i)) + multiset(Removed(xs, expired, min, i)) == multiset(xs[..i])
  {
    hide Kept, Removed;
    PartsTogether(xs, expired, min, i);
  }

  ghost predicate Together<T>(k: seq<T>, r: seq<T>, all: seq<T>) {
    multiset(k) + multiset(r) == multiset(all)
  }

  lemma {:induction false} PartsTogether<T>(xs: seq<T>, expired: seq<bool>, min: int, i: nat)
    requires i <= |xs| == |expired|
    ensures Together(Kept(xs, expired, min, i), Removed(xs, expired, min, i), xs[..i])
  {
    if i == 0 {
      assert xs[..0] == [];
    } else {
      hide Survives, Kept, Removed, Together;
      PartsTogether(xs, expired, min, i - 1);
      OneEntry(xs, expired, min, i);
      assert xs[..i] == xs[..i - 1] + [xs[i - 1]];
      Grow(Kept(xs, expired, min, i - 1), Removed(xs, expired, min, i - 1), xs[..i - 1], xs[i - 1]);
    }
  }

  lemma Grow<T>(k: seq<T>, r: seq<T>, all: seq<T>, x: T)
    requires Together(k, r, all)
    ensures Together(k + [x], r, all + [x]) && Together(k, r + [x], all + [x])
  {
    OneMore(k, x);
    OneMore(r, x);
    OneMore(all, x);
  }

  lemma OneEntry<T>(xs: seq<T>, expired: seq<bool>, min: int, i: nat)
    requires 0 < i <= |xs| == |expired|
    ensures var k, r, x := Kept(xs, expired, min, i - 1), Removed(xs, expired, min, i - 1), xs[i - 1];
      if Survives(expired, min, i - 1) then Kept(xs, expired, min, i) == k + [x] && Removed(xs, expired, min, i) == r
      else Kept(xs, expired, min, i) == k && Removed(xs, expired, min, i) == r + [x]
  {}

  lemma OneMore<T>(xs: seq<T>, x: T)
    ensures multiset(xs + [x]) == multiset(xs) + multiset{x}
  {}

  /** A removed entry had expired and stood behind at least min survivors. */
  lemma {:induction false} RemovedExpired<T>(xs: seq<T>, expired: seq<bool>, min: int, i: nat, x: T)
    requires i <= |xs| == |expired| && x in Removed(xs, expired, min, i)
    ensures exists j :: 0 <= j < i && xs[j] == x && expired[j] && min <= KeptCount(expired, min, j)
  {
    if !Survives(expired, min, i - 1) && x == xs[i - 1] {
      assert expired[i - 1];
    } else {
      RemovedExpired(xs, expired, min, i - 1, x);
    }
  }

  /** An unexpired entry survives. */
  lemma {:induction false} UnexpiredKept<T>(xs: seq<T>, expired: seq<bool>, min: int, i: nat, j: nat)
    requires j < i <= |xs| == |expired| && !expired[j]
    ensures xs[j] in Kept(xs, expired, min, i)
  {
    if j < i - 1 {
      UnexpiredKept(xs, expired, min, i - 1, j);
    }
  }

  /** An entry stays exactly when it has not expired, or fewer than min entries before it stay. */
  lemma {:induction false} StaysExactly<T>(xs: seq<T>, expired: seq<bool>, min: int, i: nat, j: nat)
    requires j < i <= |xs| == |expired| && Distinct(xs)
    ensures xs[j] in Kept(xs, expired, min, i) <==> !expired[j] || |Kept(xs, expired, min, j)| < min
  {
    if j < i - 1 {
      StaysExactly(xs, expired, min, i - 1, j);
      assert xs[j] != xs[i - 1];
    } else {
      KeptMembers(xs, expired, min, j);
      assert xs[j] !in xs[..j];
    }
  }

  lemma {:induction false} KeptMembers<T>(xs: seq<T>, expired: seq<bool>, min: int, i: nat)
    requires i <= |xs| == |expired|
    ensures forall x :: x in Kept(xs, expired, min, i) || x in Removed(xs, expired, min, i) <==> x in xs[..i]
  {
    if i > 0 {
      KeptMembers(xs, expired, min, i - 1);
      assert xs[..i] == xs[..i - 1] + [xs[i - 1]];
    }
  }

  /** One step of the sweep over a survivor. */
  lemma StepKeep<T>(xs: seq<T>, expired: seq<bool>, min: int, i: nat)
    requires i < |xs| == |expired| && Survives(expired, min, i)
    ensures Kept(xs, expired, min, i) + xs[i..] == Kept(xs, expired, min, i + 1) + xs[i + 1..]
    ensures KeptCount(expired, min, i + 1) == KeptCount(expired, min, i) + 1
    ensures Removed(xs, expired, min, i + 1) == Removed(xs, expired, min, i)
    ensures (Kept(xs, expired, min, i) + xs[i..])[KeptCount(expired, min, i)] == xs[i]
  {}

  /** One step of the sweep over a removed entry. */
  lemma StepRemove<T>(xs: seq<T>, expired: seq<bool>, min: int, i: nat)
    requires i < |xs| == |expired| && !Survives(expired, min, i)
    ensures var c, now := KeptCount(expired, min, i), Kept(xs, expired, min, i) + xs[i..];
      now[c] == xs[i] && now[..c] + now[c + 1..] == Kept(xs, expired, min, i + 1) + xs[i + 1..]
    ensures KeptCount(expired, min, i + 1) == KeptCount(expired, min, i)
    ensures Removed(xs, expired, min, i + 1) == Removed(xs, expired, min, i) + [xs[i]]
  {}

  lemma {:induction false} PartsDistinct<T>(xs: seq<T>, expired: seq<bool>, min: int, i: nat)
    requires i <= |xs| == |expired| && Distinct(xs)
    ensures Distinct(Kept(xs, expired, min, i)) && Distinct(Removed(xs, expired, min, i))
  {
    if i > 0 {
      PartsDistinct(xs, expired, min, i - 1);
      KeptMembers(xs, expired, min, i - 1);
      assert xs[i - 1] !in xs[..i - 1];
    }
  }
}
