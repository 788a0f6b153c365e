/** Which expiry an entry has, and how long it is returned. */
module LruExpiry {
  import opened LruSpec
  import opened Options
  import opened Seqs

  predicate Stores<K(==), V>(op: Op<K, V>, key: K) {
    (op.Set? || op.SetWithExpire?) && op.key == key
  }

  predicate Refreshes<K(==), V>(c: Config, op: Op<K, V>, key: K) {
    op.Get? && op.key == key && c.maxAge > 0 && c.updateAgeOnGet
  }

  /** The expiry a key got last: from its caller, from maxAge when it was set, or from maxAge when it was read. */
  function LastExpiry<K(==), V>(c: Config, ops: seq<Op<K, V>>, key: K): Option<int> {
    if ops == [] then None
    else
      var op := ops[|ops| - 1];
      if op.SetWithExpire? && op.key == key then Some(op.expires)
      else if op.Set? && op.key == key then Some(if c.maxAge > 0 then op.now + c.maxAge else 0)
      else if Refreshes(c, op, key) then Some(op.later + c.maxAge)
      else LastExpiry(c, ops[..|ops| - 1], key)
  }

  lemma ExpirySnoc<K, V>(c: Config, ops: seq<Op<K, V>>, op: Op<K, V>, key: K)
    ensures Stores(op, key) ==>
              LastExpiry(c, ops + [op], key) == Some(if op.SetWithExpire? then op.expires
                                                     else if c.maxAge > 0 then op.now + c.maxAge else 0)
    ensures Refreshes(c, op, key) ==> LastExpiry(c, ops + [op], key) == Some(op.later + c.maxAge)
    ensures !Stores(op, key) && !Refreshes(c, op, key) ==> LastExpiry(c, ops + [op], key) == LastExpiry(c, ops, key)
  {
    assert (ops + [op])[..|ops|] == ops;
  }

  /** Where the expiry of an entry comes from: the operation that gave it, or the entry it was before. */
  ghost predicate Comes<K, V>(c: Config, es: seq<Item<K, V>>, op: Op<K, V>, x: Item<K, V>) {
    if Stores(op, x.key) then
      x.expires == if op.SetWithExpire? then op.expires else if c.maxAge > 0 then op.now + c.maxAge else 0
    else if Refreshes(c, op, x.key) then x.expires == op.later + c.maxAge
    else Holds(es, x)
  }

  ghost predicate AllCome<K, V>(c: Config, es: seq<Item<K, V>>, op: Op<K, V>, r: seq<Item<K, V>>) {
    forall i :: 0 <= i < |r| ==> Comes(c, es, op, r[i])
  }

  lemma OldCome<K, V>(c: Config, es: seq<Item<K, V>>, op: Op<K, V>)
    requires op.Delete? || Absent(es, op.key)
    ensures AllCome(c, es, op, es)
  {
    forall i | 0 <= i < |es|
      ensures Comes(c, es, op, es[i])
    {
      HoldsAt(es, i);
    }
  }

  lemma RestCome<K, V>(c: Config, es: seq<Item<K, V>>, op: Op<K, V>, q: nat)
    requires DistinctKeys(es) && q < |es| && es[q].key == op.key
    ensures AllCome(c, es, op, RemoveAt(es, q))
  {
    hide Holds;
    forall i | 0 <= i < |es| - 1
      ensures Comes(c, es, op, RemoveAt(es, q)[i])
    {
      HoldsAt(es, if i < q then i else i + 1);
    }
  }

  lemma AppendCome<K, V>(c: Config, es: seq<Item<K, V>>, op: Op<K, V>, r: seq<Item<K, V>>, x: Item<K, V>)
    requires AllCome(c, es, op, r) && Comes(c, es, op, x)
    ensures AllCome(c, es, op, r + [x])
  {
    hide Comes;
  }

  lemma SuffixCome<K, V>(c: Config, es: seq<Item<K, V>>, op: Op<K, V>, r: seq<Item<K, V>>, n: nat)
    requires AllCome(c, es, op, r) && n <= |r|
    ensures AllCome(c, es, op, r[n..])
  {
    hide Comes;
  }

  lemma PurgeCome<K, V>(c: Config, es: seq<Item<K, V>>, op: Op<K, V>, r: seq<Item<K, V>>, now: int)
    requires AllCome(c, es, op, r)
    ensures AllCome(c, es, op, Purge(c, r, now))
  {
    hide AllCome, Purge;
    var n := PurgeIsLongestPrefix(c, r, now);
    SuffixCome(c, es, op, r, n);
  }

  lemma InsertCome<K, V>(c: Config, es: seq<Item<K, V>>, op: Op<K, V>, x: Item<K, V>)
    requires DistinctKeys(es) && Stores(op, x.key) && Comes(c, es, op, x)
    ensures AllCome(c, es, op, Insert(c, es, x))
  {
    hide AllCome, Comes, RemoveAt;
    var q := Place(es, x.key);
    if q >= 0 {
      RestCome(c, es, op, q);
      AppendCome(c, es, op, RemoveAt(es, q), x);
    } else {
      OldCome(c, es, op);
      AppendCome(c, es, op, es, x);
      SuffixCome(c, es, op, es + [x], 1);
    }
  }

  /** One operation gives no entry another expiry than the one it asks for, and leaves the others theirs. */
  lemma ApplyExpiries<K, V>(c: Config, es: seq<Item<K, V>>, op: Op<K, V>)
    requires DistinctKeys(es)
    ensures AllCome(c, es, op, Apply(c, es, op))
  {
    hide AllCome, RemoveAt, Insert, Purge;
    var q := Place(es, op.key);
    match op
    case Get(key, now, later) =>
      if q < 0 {
        OldCome(c, es, op);
      } else {
        RestCome(c, es, op, q);
        PurgeCome(c, es, op, RemoveAt(es, q), later);
        HoldsAt(es, q);
        if c.maxAge > 0 && c.updateAgeOnGet {
          AppendCome(c, es, op, RemoveAt(es, q), es[q].(expires := later + c.maxAge));
        } else {
          AppendCome(c, es, op, RemoveAt(es, q), es[q]);
        }
      }
    case Set(key, value, now, later) =>
      var x := Item(key, value, if c.maxAge > 0 then now + c.maxAge else 0);
      InsertCome(c, es, op, x);
      PurgeCome(c, es, op, Insert(c, es, x), later);
    case SetWithExpire(key, value, expires, now) =>
      InsertCome(c, es, op, Item(key, value, expires));
      PurgeCome(c, es, op, Insert(c, es, Item(key, value, expires)), now);
    case Delete(key) =>
      if q < 0 {
        OldCome(c, es, op);
      } else {
        RestCome(c, es, op, q);
      }
  }

  ghost predicate Dated<K, V>(c: Config, ops: seq<Op<K, V>>, es: seq<Item<K, V>>) {
    forall i :: 0 <= i < |es| ==> LastExpiry(c, ops, es[i].key) == Some(es[i].expires)
  }

  lemma DatedAt<K, V>(c: Config, ops: seq<Op<K, V>>, es: seq<Item<K, V>>, x: Item<K, V>)
    requires Dated(c, ops, es) && Holds(es, x)
    ensures LastExpiry(c, ops, x.key) == Some(x.expires)
  {
    var i :| 0 <= i < |es| && es[i] == x;
  }

  /** Over every run, each entry has the expiry given to its key last. */
  lemma {:induction false} RunDated<K, V>(c: Config, ops: seq<Op<K, V>>)
    ensures Dated(c, ops, Run(c, ops))
    decreases |ops|
  {
    hide Apply, LastExpiry, Holds;
    if ops != [] {
      var n := |ops| - 1;
      var before, after := Run(c, ops[..n]), Run(c, ops);
      RunDated(c, ops[..n]);
      RunSound(c, ops[..n]);
      ApplyExpiries(c, before, ops[n]);
      assert ops[..n] + [ops[n]] == ops;
      forall i | 0 <= i < |after|
        ensures LastExpiry(c, ops, after[i].key) == Some(after[i].expires)
      {
        ExpirySnoc(c, ops[..n], ops[n], after[i].key);
        assert Comes(c, before, ops[n], after[i]);
        if Holds(before, after[i]) {
          DatedAt(c, ops[..n], before, after[i]);
        }
      }
    }
  }

  /**
   * Get after any run: an entry that is there is returned, with the value set
   * last, exactly until the expiry given last, or for good where nothing expires.
   */
  lemma AnswerExactly<K, V>(c: Config, ops: seq<Op<K, V>>, key: K, now: int)
    ensures var there := Place(Run(c, ops), key) >= 0;
      && (there ==> LastExpiry(c, ops, key).Some?)
      && Answer(c, Run(c, ops), key, now)
         == if there && (c.Expires() ==> now < LastExpiry(c, ops, key).value) then LastValue(ops, key) else None
  {
    hide Run, LastExpiry, LastValue;
    RunSound(c, ops);
    RunDated(c, ops);
  }

  /** After a hit the entry is the last one, so that its place can be told. */
  lemma HitAnswer<K, V>(c: Config, es: seq<Item<K, V>>, key: K, now: int, later: int, t: int)
    requires Hit(c, es, key, now)
    ensures var x := es[Place(es, key)];
      var expires := if c.maxAge > 0 && c.updateAgeOnGet then later + c.maxAge else x.expires;
      Answer(c, Apply(c, es, Get(key, now, later)), key, t)
        == if c.Expires() && expires <= t then None else Some(x.value)
  {
    hide RemoveAt;
    var x := es[Place(es, key)];
    var y := if c.maxAge > 0 && c.updateAgeOnGet then x.(expires := later + c.maxAge) else x;
    assert y.key == key;
    PlaceLast(RemoveAt(es, Place(es, key)), y);
  }

  lemma PlaceLast<K, V>(es: seq<Item<K, V>>, x: Item<K, V>)
    ensures Place(es + [x], x.key) == |es|
  {}

  /** A hit that refreshes: the value is returned again for just maxAge from then on. */
  lemma HitRefreshes<K, V>(c: Config, es: seq<Item<K, V>>, key: K, now: int, later: int, t: int)
    requires c.Expires() && c.updateAgeOnGet && Hit(c, es, key, now)
    ensures Answer(c, Apply(c, es, Get(key, now, later)), key, t)
         == if t < later + c.maxAge then Answer(c, es, key, now) else None
  {
    hide Apply;
    HitAnswer(c, es, key, now, later, t);
  }

  /** A hit that does not: it changes no later answer about its key. */
  lemma HitKeepsAge<K, V>(c: Config, es: seq<Item<K, V>>, key: K, now: int, later: int, t: int)
    requires !c.updateAgeOnGet && Hit(c, es, key, now)
    ensures Answer(c, Apply(c, es, Get(key, now, later)), key, t) == Answer(c, es, key, t)
  {
    hide Apply;
    HitAnswer(c, es, key, now, later, t);
  }
}
