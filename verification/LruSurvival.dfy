/**
 * How long an entry of the LRU cache lives: it outlasts a run exactly when it
 * is not deleted and there are at no time maxSize other keys that were used
 * since its own last use and not given up again.
 */
module LruSurvival {
  import opened LruSpec
  import opened Seqs

  /** The keys used since operation t and not given up again, as the caller of the cache sees it. */
  function Others<K(==), V>(c: Config, ops: seq<Op<K, V>>, t: nat): set<K>
    requires t <= |ops|
    decreases |ops|
  {
    if |ops| == t then {}
    else
      var n := |ops| - 1;
      Use(c, Run(c, ops[..n]), ops[n], Others(c, ops[..n], t))
  }

  /** A key is used when it is set or found, and given up when it is deleted or looked for in vain. */
  function Use<K(==), V>(c: Config, es: seq<Item<K, V>>, op: Op<K, V>, b: set<K>): set<K> {
    if op.Delete? || (op.Get? && Answer(c, es, op.key, op.now).None?) then b - {op.key} else b + {op.key}
  }

  /** The keys set or found since operation t, whatever became of them. */
  function Used<K(==), V>(c: Config, ops: seq<Op<K, V>>, t: nat): set<K>
    requires t <= |ops|
    decreases |ops|
  {
    if |ops| == t then {}
    else
      var n, u := |ops| - 1, Used(c, ops[..|ops| - 1], t);
      u + Use(c, Run(c, ops[..n]), ops[n], {})
  }

  ghost function Keys<K, V>(es: seq<Item<K, V>>): set<K> {
    set i | 0 <= i < |es| :: es[i].key
  }

  /** x is at place i, and b are the keys behind it. */
  ghost predicate StandsAt<K, V>(es: seq<Item<K, V>>, x: Item<K, V>, b: set<K>, i: nat) {
    i < |es| && es[i] == x && b == Keys(es[i + 1..])
  }

  ghost predicate Stands<K, V>(es: seq<Item<K, V>>, x: Item<K, V>, b: set<K>) {
    exists i: nat :: StandsAt(es, x, b, i)
  }

  /** No clock reading of the operation finds x expired. */
  predicate Unexpired<K, V>(c: Config, op: Op<K, V>, x: Item<K, V>) {
    c.Expires() && !op.Delete? ==> x.expires > PurgeTime(op)
  }

  lemma AppendKeys<K, V>(es: seq<Item<K, V>>, y: Item<K, V>)
    ensures Keys(es + [y]) == Keys(es) + {y.key}
  {
    assert (es + [y])[|es|] == y;
    assert forall j :: 0 <= j < |es| ==> (es + [y])[j] == es[j];
  }

  lemma {:induction false} KeysCount<K, V>(es: seq<Item<K, V>>)
    requires DistinctKeys(es)
    ensures |Keys(es)| == |es|
    decreases |es|
  {
    if es != [] {
      var n := |es| - 1;
      KeysCount(es[..n]);
      AppendKeys(es[..n], es[n]);
      assert es == es[..n] + [es[n]];
      assert es[n].key !in Keys(es[..n]);
    }
  }

  lemma StandsCount<K, V>(es: seq<Item<K, V>>, x: Item<K, V>, b: set<K>, i: nat)
    requires DistinctKeys(es) && StandsAt(es, x, b, i)
    ensures |b| == |es| - 1 - i && x.key !in b
  {
    KeysCount(es[i + 1..]);
  }

  lemma RemoveKeys<K, V>(es: seq<Item<K, V>>, q: nat)
    requires DistinctKeys(es) && q < |es|
    ensures Keys(RemoveAt(es, q)) == Keys(es) - {es[q].key}
  {
    hide RemoveAt;
    var r := RemoveAt(es, q);
    forall k | k in Keys(es) - {es[q].key}
      ensures k in Keys(r)
    {
      var j :| 0 <= j < |es| && es[j].key == k;
      assert r[if j < q then j else j - 1].key == k;
    }
    forall k | k in Keys(r)
      ensures k in Keys(es) - {es[q].key}
    {
      var j :| 0 <= j < |r| && r[j].key == k;
      assert es[if j < q then j else j + 1].key == k;
    }
  }

  lemma RemoveBefore<T>(s: seq<T>, q: nat, i: nat)
    requires q < i < |s|
    ensures RemoveAt(s, q)[i..] == s[i + 1..] && RemoveAt(s, q)[i - 1] == s[i]
  {}

  lemma RemoveBehind<T>(s: seq<T>, q: nat, i: nat)
    requires i < q < |s|
    ensures RemoveAt(s, q)[i + 1..] == RemoveAt(s[i + 1..], q - i - 1) && RemoveAt(s, q)[i] == s[i]
  {}

  lemma RemoveStands<K, V>(es: seq<Item<K, V>>, x: Item<K, V>, b: set<K>, q: nat)
    requires DistinctKeys(es) && Stands(es, x, b) && q < |es| && es[q].key != x.key
    ensures Stands(RemoveAt(es, q), x, b - {es[q].key})
  {
    hide RemoveAt, Keys;
    var i: nat :| StandsAt(es, x, b, i);
    if q < i {
      RemoveBefore(es, q, i);
      NotBehind(es, q, i);
      assert StandsAt(RemoveAt(es, q), x, b - {es[q].key}, i - 1);
    } else {
      RemoveBehind(es, q, i);
      RemoveKeys(es[i + 1..], q - i - 1);
      assert StandsAt(RemoveAt(es, q), x, b - {es[q].key}, i);
    }
  }

  lemma NotBehind<K, V>(es: seq<Item<K, V>>, q: nat, i: nat)
    requires DistinctKeys(es) && q < i < |es|
    ensures Keys(es[i + 1..]) - {es[q].key} == Keys(es[i + 1..])
  {}

  lemma AppendStandsAt<K, V>(es: seq<Item<K, V>>, x: Item<K, V>, b: set<K>, i: nat, y: Item<K, V>)
    requires StandsAt(es, x, b, i)
    ensures StandsAt(es + [y], x, b + {y.key}, i)
  {
    hide Keys;
    assert (es + [y])[i + 1..] == es[i + 1..] + [y];
    AppendKeys(es[i + 1..], y);
  }

  lemma AppendStands<K, V>(es: seq<Item<K, V>>, x: Item<K, V>, b: set<K>, y: Item<K, V>)
    requires Stands(es, x, b)
    ensures Stands(es + [y], x, b + {y.key})
  {
    hide StandsAt;
    var i: nat :| StandsAt(es, x, b, i);
    AppendStandsAt(es, x, b, i, y);
  }

  lemma SuffixStands<K, V>(es: seq<Item<K, V>>, x: Item<K, V>, b: set<K>, i: nat, n: nat)
    requires StandsAt(es, x, b, i) && n <= i
    ensures Stands(es[n..], x, b)
  {
    assert es[n..][i - n + 1..] == es[i + 1..];
    assert StandsAt(es[n..], x, b, i - n);
  }

  lemma PurgeStands<K, V>(c: Config, es: seq<Item<K, V>>, now: int, x: Item<K, V>, b: set<K>)
    requires Stands(es, x, b) && (c.Expires() ==> x.expires > now)
    ensures Stands(Purge(c, es, now), x, b)
  {
    var i: nat :| StandsAt(es, x, b, i);
    var n := PurgeIsLongestPrefix(c, es, now);
    assert n <= i;
    SuffixStands(es, x, b, i, n);
  }

  lemma PurgeAbsent<K, V>(c: Config, es: seq<Item<K, V>>, now: int, key: K)
    requires Absent(es, key)
    ensures Absent(Purge(c, es, now), key)
  {
    var n := PurgeIsLongestPrefix(c, es, now);
  }

  /** A key that is there moves behind all others; whatever is done to it, x stands where it can. */
  lemma MoveStands<K, V>(es: seq<Item<K, V>>, x: Item<K, V>, b: set<K>, q: nat, y: Item<K, V>)
    requires DistinctKeys(es) && Stands(es, x, b) && q < |es| && es[q].key == y.key != x.key
    ensures Stands(RemoveAt(es, q) + [y], x, b + {y.key}) && |b + {y.key}| < |es|
  {
    hide StandsAt, RemoveAt;
    RemoveStands(es, x, b, q);
    AppendStands(RemoveAt(es, q), x, b - {y.key}, y);
    assert b - {y.key} + {y.key} == b + {y.key};
    var i: nat :| StandsAt(es, x, b, i);
    UsedPresent(es, x, b, i, y.key, q);
  }

  lemma InsertStands<K, V>(c: Config, es: seq<Item<K, V>>, x: Item<K, V>, b: set<K>, y: Item<K, V>)
    requires DistinctKeys(es) && Stands(es, x, b) && y.key != x.key && (c.maxSize > 0 ==> |es| <= c.maxSize)
    ensures if c.maxSize <= 0 || |b + {y.key}| < c.maxSize then Stands(Insert(c, es, y), x, b + {y.key})
            else Absent(Insert(c, es, y), x.key)
  {
    hide Place, RemoveAt, StandsAt, Keys, DistinctKeys;
    var q := Place(es, y.key);
    if q >= 0 {
      MoveStands(es, x, b, q, y);
    } else {
      var i: nat :| StandsAt(es, x, b, i);
      NewKeyStands(c, es, x, b, i, y);
    }
  }

  lemma NewKeyStands<K, V>(c: Config, es: seq<Item<K, V>>, x: Item<K, V>, b: set<K>, i: nat, y: Item<K, V>)
    requires DistinctKeys(es) && StandsAt(es, x, b, i) && Absent(es, y.key) && (c.maxSize > 0 ==> |es| <= c.maxSize)
    ensures var r := if c.maxSize > 0 && |es| + 1 > c.maxSize then (es + [y])[1..] else es + [y];
      if c.maxSize <= 0 || |b + {y.key}| < c.maxSize then Stands(r, x, b + {y.key}) else Absent(r, x.key)
  {
    hide Keys;
    StandsCount(es, x, b, i);
    NewKey(es, b, i, y.key);
    AppendStandsAt(es, x, b, i, y);
    if c.maxSize > 0 && |es| + 1 > c.maxSize {
      if i > 0 {
        SuffixStands(es + [y], x, b + {y.key}, i, 1);
      }
    } else {
      SuffixStands(es + [y], x, b + {y.key}, i, 0);
      assert (es + [y])[0..] == es + [y];
    }
  }

  lemma NewKey<K, V>(es: seq<Item<K, V>>, b: set<K>, i: nat, key: K)
    requires i < |es| && b == Keys(es[i + 1..]) && Absent(es, key)
    ensures |b + {key}| == |b| + 1
  {
    assert key !in b;
  }

  /** A key that is there and moves to the back makes the others no more than the cache can hold beside x. */
  lemma UsedPresent<K, V>(es: seq<Item<K, V>>, x: Item<K, V>, b: set<K>, i: nat, key: K, q: nat)
    requires DistinctKeys(es) && StandsAt(es, x, b, i) && q < |es| && es[q].key == key && key != x.key
    ensures |b + {key}| < |es|
  {
    StandsCount(es, x, b, i);
    if q > i {
      assert es[i + 1..][q - i - 1].key == key;
      assert b + {key} == b;
    }
  }

  // ---------------------------------------------------------------- one operation

  lemma MissStands<K, V>(c: Config, es: seq<Item<K, V>>, x: Item<K, V>, b: set<K>, key: K)
    requires DistinctKeys(es) && Stands(es, x, b) && key != x.key
    ensures Stands(Remove(es, key), x, b - {key}) && |b - {key}| < |es|
  {
    hide StandsAt, RemoveAt, Place;
    var i: nat :| StandsAt(es, x, b, i);
    StandsCount(es, x, b, i);
    var q := Place(es, key);
    if q >= 0 {
      RemoveStands(es, x, b, q);
    } else {
      AbsentBehind(es, x, b, i, key);
    }
    Fewer(b, key);
  }

  lemma Fewer<K>(b: set<K>, key: K)
    ensures |b - {key}| <= |b|
  {
    if key !in b {
      assert b - {key} == b;
    }
  }

  lemma AbsentBehind<K, V>(es: seq<Item<K, V>>, x: Item<K, V>, b: set<K>, i: nat, key: K)
    requires StandsAt(es, x, b, i) && Absent(es, key)
    ensures b - {key} == b
  {}

  /** What one operation on another key does to an unexpired entry: it stays, or there are maxSize others now. */
  lemma ApplyStands<K, V>(c: Config, es: seq<Item<K, V>>, op: Op<K, V>, x: Item<K, V>, b: set<K>)
    requires DistinctKeys(es) && Stands(es, x, b) && op.key != x.key && Unexpired(c, op, x)
    requires c.maxSize > 0 ==> |es| <= c.maxSize
    ensures var b' := Use(c, es, op, b);
      if c.maxSize <= 0 || |b'| < c.maxSize then Stands(Apply(c, es, op), x, b') else Absent(Apply(c, es, op), x.key)
  {
    hide Stands, DistinctKeys, Insert, Purge, Place, RemoveAt;
    var i, b' := Place(es, op.key), Use(c, es, op, b);
    match op
    case Get(key, now, later) =>
      if i < 0 {
        MissStands(c, es, x, b, key);
      } else if Hit(c, es, key, now) {
        MoveStands(es, x, b, i, es[i]);
        MoveStands(es, x, b, i, es[i].(expires := later + c.maxAge));
      } else {
        MissStands(c, es, x, b, key);
        PurgeStands(c, RemoveAt(es, i), later, x, b - {key});
      }
    case Set(key, value, now, later) =>
      SetStands(c, es, x, b, Item(key, value, if c.maxAge > 0 then now + c.maxAge else 0), later);
    case SetWithExpire(key, value, expires, now) =>
      SetStands(c, es, x, b, Item(key, value, expires), now);
    case Delete(key) =>
      MissStands(c, es, x, b, key);
  }

  lemma SetStands<K, V>(c: Config, es: seq<Item<K, V>>, x: Item<K, V>, b: set<K>, y: Item<K, V>, now: int)
    requires DistinctKeys(es) && Stands(es, x, b) && y.key != x.key && (c.Expires() ==> x.expires > now)
    requires c.maxSize > 0 ==> |es| <= c.maxSize
    ensures if c.maxSize <= 0 || |b + {y.key}| < c.maxSize then Stands(Purge(c, Insert(c, es, y), now), x, b + {y.key})
            else Absent(Purge(c, Insert(c, es, y), now), x.key)
  {
    hide Stands, DistinctKeys, Insert, Purge, Absent;
    InsertStands(c, es, x, b, y);
    if c.maxSize <= 0 || |b + {y.key}| < c.maxSize {
      PurgeStands(c, Insert(c, es, y), now, x, b + {y.key});
    } else {
      PurgeAbsent(c, Insert(c, es, y), now, x.key);
    }
  }

  lemma RemoveAbsent<K, V>(es: seq<Item<K, V>>, i: nat, key: K)
    requires Absent(es, key) && i < |es|
    ensures Absent(RemoveAt(es, i), key) && es[i].key != key
  {}

  lemma AppendAbsent<K, V>(es: seq<Item<K, V>>, y: Item<K, V>, key: K)
    requires Absent(es, key) && y.key != key
    ensures Absent(es + [y], key)
  {}

  lemma InsertAbsent<K, V>(c: Config, es: seq<Item<K, V>>, y: Item<K, V>, key: K)
    requires Absent(es, key) && y.key != key
    ensures Absent(Insert(c, es, y), key)
  {
    hide RemoveAt, Place;
    AppendAbsent(es, y, key);
    if Place(es, y.key) >= 0 {
      RemoveAbsent(es, Place(es, y.key), key);
      AppendAbsent(RemoveAt(es, Place(es, y.key)), y, key);
    }
  }

  /** A key that is not there does not come back by itself. */
  lemma StaysAbsent<K, V>(c: Config, es: seq<Item<K, V>>, op: Op<K, V>, key: K)
    requires Absent(es, key) && !Touches(op, key)
    ensures Absent(Apply(c, es, op), key)
  {
    hide Purge, Place, RemoveAt, Insert, Absent;
    var i := Place(es, op.key);
    if i >= 0 {
      RemoveAbsent(es, i, key);
    }
    match op
    case Get(_, now, later) =>
      if i >= 0 {
        PurgeAbsent(c, RemoveAt(es, i), later, key);
        AppendAbsent(RemoveAt(es, i), es[i], key);
        AppendAbsent(RemoveAt(es, i), es[i].(expires := later + c.maxAge), key);
      }
    case Set(_, value, now, later) =>
      var y := Item(op.key, value, if c.maxAge > 0 then now + c.maxAge else 0);
      InsertAbsent(c, es, y, key);
      PurgeAbsent(c, Insert(c, es, y), later, key);
    case SetWithExpire(_, value, expires, now) =>
      InsertAbsent(c, es, Item(op.key, value, expires), key);
      PurgeAbsent(c, Insert(c, es, Item(op.key, value, expires)), now, key);
    case Delete(_) =>
  }

  lemma DeletedIsAbsent<K, V>(es: seq<Item<K, V>>, key: K)
    requires DistinctKeys(es)
    ensures Absent(Remove(es, key), key)
  {}

  // ---------------------------------------------------------------- whole runs

  /** x was used last at operation t, and from there on is only ever deleted and never found expired. */
  ghost predicate LeftAlone<K, V>(c: Config, ops: seq<Op<K, V>>, t: nat, x: Item<K, V>) {
    && t <= |ops|
    && var es := Run(c, ops[..t]);
    && es != [] && es[|es| - 1] == x
    && forall p :: t <= p < |ops| ==> !Touches(ops[p], x.key) && Unexpired(c, ops[p], x)
  }

  ghost predicate NeverDeleted<K, V>(ops: seq<Op<K, V>>, t: nat, key: K) {
    forall p :: t <= p < |ops| ==> !(ops[p].Delete? && ops[p].key == key)
  }

  ghost predicate RoomAt<K, V>(c: Config, ops: seq<Op<K, V>>, t: nat, p: nat)
    requires t <= p <= |ops|
  {
    c.maxSize <= 0 || |Others(c, ops[..p], t)| < c.maxSize
  }

  ghost predicate AlwaysRoom<K, V>(c: Config, ops: seq<Op<K, V>>, t: nat)
    requires t <= |ops|
  {
    forall p :: t <= p <= |ops| ==> RoomAt(c, ops, t, p)
  }

  lemma OneMore<K, V>(c: Config, ops: seq<Op<K, V>>, t: nat, key: K)
    requires t < |ops|
    ensures var n := |ops| - 1;
      && (AlwaysRoom(c, ops, t) <==> AlwaysRoom(c, ops[..n], t) && (c.maxSize <= 0 || |Others(c, ops, t)| < c.maxSize))
      && (NeverDeleted(ops, t, key) <==> NeverDeleted(ops[..n], t, key) && !(ops[n].Delete? && ops[n].key == key))
  {
    hide Others;
    var n := |ops| - 1;
    assert ops[..|ops|] == ops;
    assert forall p :: t <= p <= n ==> ops[..n][..p] == ops[..p];
    assert forall p :: t <= p <= n ==> (RoomAt(c, ops[..n], t, p) <==> RoomAt(c, ops, t, p));
    assert RoomAt(c, ops, t, |ops|) <==> c.maxSize <= 0 || |Others(c, ops, t)| < c.maxSize;
  }

  lemma LeftAloneBefore<K, V>(c: Config, ops: seq<Op<K, V>>, t: nat, x: Item<K, V>)
    requires LeftAlone(c, ops, t, x) && t < |ops|
    ensures LeftAlone(c, ops[..|ops| - 1], t, x)
    ensures !Touches(ops[|ops| - 1], x.key) && Unexpired(c, ops[|ops| - 1], x)
  {
    assert ops[..|ops| - 1][..t] == ops[..t];
  }

  lemma {:induction false} StandsOrGone<K, V>(c: Config, ops: seq<Op<K, V>>, t: nat, x: Item<K, V>)
    requires LeftAlone(c, ops, t, x)
    ensures if AlwaysRoom(c, ops, t) && NeverDeleted(ops, t, x.key) then Stands(Run(c, ops), x, Others(c, ops, t))
            else Absent(Run(c, ops), x.key)
    decreases |ops|
  {
    hide Apply, Use, Stands, Absent, Touches, Unexpired, DistinctKeys, AlwaysRoom, NeverDeleted;
    if |ops| == t {
      AtTheBack(c, ops, x);
    } else {
      var n := |ops| - 1;
      var es := Run(c, ops[..n]);
      LeftAloneBefore(c, ops, t, x);
      StandsOrGone(c, ops[..n], t, x);
      OneMore(c, ops, t, x.key);
      RunSound(c, ops[..n]);
      OneStep(c, es, ops[n], x, Others(c, ops[..n], t));
    }
  }

  lemma OneStep<K, V>(c: Config, es: seq<Item<K, V>>, op: Op<K, V>, x: Item<K, V>, b: set<K>)
    requires DistinctKeys(es) && (c.maxSize > 0 ==> |es| <= c.maxSize) && !Touches(op, x.key) && Unexpired(c, op, x)
    ensures Absent(es, x.key) ==> Absent(Apply(c, es, op), x.key)
    ensures op.Delete? && op.key == x.key ==> Absent(Apply(c, es, op), x.key)
    ensures var b' := Use(c, es, op, b);
      Stands(es, x, b) && !(op.Delete? && op.key == x.key) ==>
      if c.maxSize <= 0 || |b'| < c.maxSize then Stands(Apply(c, es, op), x, b') else Absent(Apply(c, es, op), x.key)
  {
    hide Use, Stands, Absent, Unexpired, DistinctKeys, Insert, Purge, Remove;
    if Absent(es, x.key) {
      StaysAbsent(c, es, op, x.key);
    }
    if op.Delete? && op.key == x.key {
      DeletedIsAbsent(es, x.key);
    } else if Stands(es, x, b) {
      ApplyStands(c, es, op, x, b);
    }
  }

  lemma AtTheBack<K, V>(c: Config, ops: seq<Op<K, V>>, x: Item<K, V>)
    requires LeftAlone(c, ops, |ops|, x)
    ensures AlwaysRoom(c, ops, |ops|) && NeverDeleted(ops, |ops|, x.key)
    ensures Stands(Run(c, ops), x, Others(c, ops, |ops|))
  {
    hide Run;
    assert ops[..|ops|] == ops;
    var es := Run(c, ops);
    assert Keys(es[|es|..]) == {};
    assert StandsAt(es, x, {}, |es| - 1);
  }

  /**
   * An entry left alone since its last use is still there after a run exactly
   * when it was not deleted, and there were at no time maxSize other keys used
   * since then and not given up again.
   */
  lemma SurvivesExactly<K, V>(c: Config, ops: seq<Op<K, V>>, t: nat, x: Item<K, V>)
    requires LeftAlone(c, ops, t, x)
    ensures Holds(Run(c, ops), x) <==> AlwaysRoom(c, ops, t) && NeverDeleted(ops, t, x.key)
  {
    hide Run, AlwaysRoom, NeverDeleted, LeftAlone;
    StandsOrGone(c, ops, t, x);
  }

  // ---------------------------------------------------------------- counting alone

  ghost predicate NoDeletes<K, V>(ops: seq<Op<K, V>>, t: nat) {
    forall p :: t <= p < |ops| ==> !ops[p].Delete?
  }

  lemma {:induction false} StandsByCount<K, V>(c: Config, ops: seq<Op<K, V>>, t: nat, x: Item<K, V>)
    requires LeftAlone(c, ops, t, x) && NoDeletes(ops, t) && !c.Expires()
    ensures if c.maxSize <= 0 || |Used(c, ops, t)| < c.maxSize then Stands(Run(c, ops), x, Used(c, ops, t))
            else Absent(Run(c, ops), x.key)
    decreases |ops|
  {
    hide Apply, Stands, Absent, Touches, Unexpired, DistinctKeys, Use;
    if |ops| == t {
      AtTheBack(c, ops, x);
      assert Others(c, ops, t) == Used(c, ops, t) == {};
    } else {
      var n := |ops| - 1;
      var es, u, op := Run(c, ops[..n]), Used(c, ops[..n], t), ops[n];
      LeftAloneBefore(c, ops, t, x);
      StandsByCount(c, ops[..n], t, x);
      RunSound(c, ops[..n]);
      OneStep(c, es, op, x, u);
      Subset(u, Used(c, ops, t));
      if Stands(es, x, u) {
        OnlyGrows(c, es, op, x, u);
      }
    }
  }

  lemma Subset<K>(a: set<K>, b: set<K>)
    requires a <= b
    ensures |a| <= |b|
  {
    assert b == a + (b - a);
  }

  /** When nothing expires or is deleted, no key is given up. */
  lemma OnlyGrows<K, V>(c: Config, es: seq<Item<K, V>>, op: Op<K, V>, x: Item<K, V>, b: set<K>)
    requires Stands(es, x, b) && !op.Delete? && !c.Expires()
    ensures Use(c, es, op, b) == b + Use(c, es, op, {})
  {
    var i: nat :| StandsAt(es, x, b, i);
    if op.Get? && Answer(c, es, op.key, op.now).None? {
      AbsentBehind(es, x, b, i, op.key);
    }
  }

  /** Without deletions and expiry it is the number of other keys used that decides. */
  lemma CountDecides<K, V>(c: Config, ops: seq<Op<K, V>>, t: nat, x: Item<K, V>)
    requires LeftAlone(c, ops, t, x) && NoDeletes(ops, t) && !c.Expires()
    ensures Holds(Run(c, ops), x) <==> c.maxSize <= 0 || |Used(c, ops, t)| < c.maxSize
  {
    hide Run, LeftAlone, Used, NoDeletes;
    StandsByCount(c, ops, t, x);
  }

  lemma RunStep<K, V>(c: Config, ops: seq<Op<K, V>>, n: nat)
    requires 0 < n <= |ops|
    ensures Run(c, ops[..n]) == Apply(c, Run(c, ops[..n - 1]), ops[n - 1])
    ensures 1 < n ==>
      Used(c, ops[..n], 1) == Used(c, ops[..n - 1], 1) + Use(c, Run(c, ops[..n - 1]), ops[n - 1], {})
  {
    assert ops[..n][..n - 1] == ops[..n - 1];
  }

  const TWO: Config := Config(0, 2, false, false)

  lemma Fills(es: seq<Item<int, char>>, key: int, value: char)
    requires |es| < 2 && Absent(es, key)
    ensures Apply(TWO, es, SetWithExpire(key, value, 0, 0)) == es + [Item(key, value, 0)]
  {}

  lemma Empties(x: Item<int, char>, y: Item<int, char>)
    requires x.key != y.key
    ensures Apply(TWO, [x, y], Delete(y.key)) == [x]
  {
    assert RemoveAt([x, y], 1) == [x];
  }

  /** With deletions it does not: two other keys have been used here, and the cache holds two. */
  lemma CountAloneFails()
    ensures var ops :=
        [SetWithExpire(0, 'a', 0, 0), SetWithExpire(1, 'b', 0, 0), Delete(1), SetWithExpire(2, 'c', 0, 0)];
      && LeftAlone(TWO, ops, 1, Item(0, 'a', 0))
      && Used(TWO, ops, 1) == {1, 2} && Run(TWO, ops) == [Item(0, 'a', 0), Item(2, 'c', 0)]
  {
    hide Run, Used, Apply;
    var ops := [SetWithExpire(0, 'a', 0, 0), SetWithExpire(1, 'b', 0, 0), Delete(1), SetWithExpire(2, 'c', 0, 0)];
    var a, b := Item(0, 'a', 0), Item(1, 'b', 0);
    Nothing<int, char>(TWO, ops);
    RunStep(TWO, ops, 1);
    Fills([], 0, 'a');
    assert Run(TWO, ops[..1]) == [a];
    RunStep(TWO, ops, 2);
    Fills([a], 1, 'b');
    assert Run(TWO, ops[..2]) == [a, b];
    RunStep(TWO, ops, 3);
    Empties(a, b);
    RunStep(TWO, ops, 4);
    Fills([a], 2, 'c');
    assert ops[..4] == ops;
  }

  lemma Nothing<K, V>(c: Config, ops: seq<Op<K, V>>)
    ensures Run(c, ops[..0]) == [] && (ops != [] ==> Used(c, ops[..1], 1) == {})
  {}

  lemma InsertLast<K, V>(c: Config, es: seq<Item<K, V>>, y: Item<K, V>)
    ensures var r := Insert(c, es, y); r != [] && r[|r| - 1] == y
  {}

  lemma PurgeLast<K, V>(c: Config, es: seq<Item<K, V>>, now: int)
    requires es != [] && (c.Expires() ==> es[|es| - 1].expires > now)
    ensures var r := Purge(c, es, now); r != [] && r[|r| - 1] == es[|es| - 1]
  {
    var n := PurgeIsLongestPrefix(c, es, now);
  }

  /** A key that has been set, or found, and has not expired meanwhile stands last. */
  lemma UsedGoesLast<K, V>(c: Config, es: seq<Item<K, V>>, op: Op<K, V>)
    requires op.Get? ==> Hit(c, es, op.key, op.now)
    requires op.Set? && c.Expires() ==> op.now + c.maxAge > op.later
    requires op.SetWithExpire? && c.Expires() ==> op.expires > op.now
    requires !op.Delete?
    ensures var r := Apply(c, es, op); r != [] && r[|r| - 1].key == op.key
  {
    hide Insert, Purge, Place, RemoveAt;
    match op
    case Get(_, _, _) =>
    case Set(key, value, now, later) =>
      var y := Item(key, value, if c.maxAge > 0 then now + c.maxAge else 0);
      InsertLast(c, es, y);
      PurgeLast(c, Insert(c, es, y), later);
    case SetWithExpire(key, value, expires, now) =>
      InsertLast(c, es, Item(key, value, expires));
      PurgeLast(c, Insert(c, es, Item(key, value, expires)), now);
  }
}
