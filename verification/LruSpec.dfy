/** What the LRU cache does to its entries, as a list from least to most recently touched. */
module LruSpec {
  import opened Options
  import opened Seqs

  datatype Item<+K, +V> = Item(key: K, value: V, expires: int)

  datatype Config = Config(maxAge: int, maxSize: int, updateAgeOnGet: bool, staleReturn: bool) {
    predicate Expires() { !staleReturn && maxAge > 0 }
  }

  ghost predicate DistinctKeys<K, V>(es: seq<Item<K, V>>) {
    forall i, j :: 0 <= i < j < |es| ==> es[i].key != es[j].key
  }

  /** Where a key is, or -1. */
  function Place<K(==), V>(es: seq<Item<K, V>>, key: K): (i: int)
    ensures -1 <= i < |es|
    ensures i >= 0 ==> es[i].key == key
    ensures i < 0 ==> forall j :: 0 <= j < |es| ==> es[j].key != key
  {
    if es == [] then -1 else if es[|es| - 1].key == key then |es| - 1 else Place(es[..|es| - 1], key)
  }

  function Remove<K(==), V>(es: seq<Item<K, V>>, key: K): seq<Item<K, V>> {
    var i := Place(es, key);
    if i < 0 then es else RemoveAt(es, i)
  }

  /** maybeDeleteOldest: drops entries from the front while they have expired. */
  function Purge<K, V>(c: Config, es: seq<Item<K, V>>, now: int): seq<Item<K, V>> {
    if c.Expires() && es != [] && es[0].expires <= now then Purge(c, es[1..], now) else es
  }

  /** What maybeDeleteOldest drops. */
  function Expired<K, V>(c: Config, es: seq<Item<K, V>>, now: int): seq<Item<K, V>> {
    if c.Expires() && es != [] && es[0].expires <= now then [es[0]] + Expired(c, es[1..], now) else []
  }

  function Insert<K(==), V>(c: Config, es: seq<Item<K, V>>, x: Item<K, V>): seq<Item<K, V>> {
    if Place(es, x.key) >= 0 then Remove(es, x.key) + [x]
    else
      var r := es + [x];
      if c.maxSize > 0 && |r| > c.maxSize then r[1..] else r
  }

  /** An operation with the clock readings it takes, in order. */
  datatype Op<K, V> =
    | Get(key: K, now: int, later: int)
    | Set(key: K, value: V, now: int, later: int)
    | SetWithExpire(key: K, value: V, expires: int, now: int)
    | Delete(key: K)

  predicate Hit<K(==), V>(c: Config, es: seq<Item<K, V>>, key: K, now: int) {
    var i := Place(es, key);
    i >= 0 && !(c.Expires() && es[i].expires <= now)
  }

  function Answer<K(==), V>(c: Config, es: seq<Item<K, V>>, key: K, now: int): Option<V> {
    if Hit(c, es, key, now) then Some(es[Place(es, key)].value) else None
  }

  function Apply<K(==), V>(c: Config, es: seq<Item<K, V>>, op: Op<K, V>): seq<Item<K, V>> {
    match op
    case Get(key, now, later) =>
      var i := Place(es, key);
      if i < 0 then es
      else if !Hit(c, es, key, now) then Purge(c, RemoveAt(es, i), later)
      else
        var x := if c.maxAge > 0 && c.updateAgeOnGet then es[i].(expires := later + c.maxAge) else es[i];
        RemoveAt(es, i) + [x]
    case Set(key, value, now, later) =>
      Purge(c, Insert(c, es, Item(key, value, if c.maxAge > 0 then now + c.maxAge else 0)), later)
    case SetWithExpire(key, value, expires, now) =>
      Purge(c, Insert(c, es, Item(key, value, expires)), now)
    case Delete(key) => Remove(es, key)
  }

  function Overflow<K(==), V>(c: Config, es: seq<Item<K, V>>, x: Item<K, V>): seq<Item<K, V>> {
    if Place(es, x.key) < 0 && c.maxSize > 0 && |es| + 1 > c.maxSize then [(es + [x])[0]] else []
  }

  /** The entries an operation reports to the eviction callback, in order. */
  function Evicted<K(==), V>(c: Config, es: seq<Item<K, V>>, op: Op<K, V>): seq<Item<K, V>> {
    match op
    case Get(key, now, later) =>
      var i := Place(es, key);
      if i < 0 || Hit(c, es, key, now) then [] else [es[i]] + Expired(c, RemoveAt(es, i), later)
    case Set(key, value, now, later) =>
      var x := Item(key, value, if c.maxAge > 0 then now + c.maxAge else 0);
      Overflow(c, es, x) + Expired(c, Insert(c, es, x), later)
    case SetWithExpire(key, value, expires, now) =>
      var x := Item(key, value, expires);
      Overflow(c, es, x) + Expired(c, Insert(c, es, x), now)
    case Delete(key) =>
      var i := Place(es, key);
      if i < 0 then [] else [es[i]]
  }

  function Run<K(==), V>(c: Config, ops: seq<Op<K, V>>): seq<Item<K, V>> {
    if ops == [] then [] else Apply(c, Run(c, ops[..|ops| - 1]), ops[|ops| - 1])
  }

  // ---------------------------------------------------------------- purging

  /** Exactly the longest expired prefix goes: all of it has expired, and what follows it has not. */
  lemma {:induction false} PurgeIsLongestPrefix<K, V>(c: Config, es: seq<Item<K, V>>, now: int) returns (n: nat)
    ensures n <= |es| && Purge(c, es, now) == es[n..]
    ensures c.Expires() ==> forall i :: 0 <= i < n ==> es[i].expires <= now
    ensures c.Expires() && n < |es| ==> es[n].expires > now
    ensures !c.Expires() ==> n == 0
  {
    if c.Expires() && es != [] && es[0].expires <= now {
      var m := PurgeIsLongestPrefix(c, es[1..], now);
      n := m + 1;
    } else {
      n := 0;
    }
  }

  // ---------------------------------------------------------------- order of last touch

  /** The entries that move when an operation touches a key. */
  predicate Touches<K(==), V>(op: Op<K, V>, key: K) {
    !op.Delete? && op.key == key
  }

  /** The number of the last operation that touched a key; 0 for none. */
  function LastTouch<K(==), V>(ops: seq<Op<K, V>>, key: K): (n: nat)
    ensures n <= |ops|
  {
    if ops == [] then 0 else if Touches(ops[|ops| - 1], key) then |ops| else LastTouch(ops[..|ops| - 1], key)
  }

  /** The value the last Set of a key gave it. */
  function LastValue<K(==), V>(ops: seq<Op<K, V>>, key: K): Option<V> {
    if ops == [] then None
    else
      var op := ops[|ops| - 1];
      if (op.Set? || op.SetWithExpire?) && op.key == key then Some(op.value)
      else LastValue(ops[..|ops| - 1], key)
  }

  ghost predicate InOrder<K, V>(ops: seq<Op<K, V>>, es: seq<Item<K, V>>) {
    forall i, j :: 0 <= i < j < |es| ==> LastTouch(ops, es[i].key) < LastTouch(ops, es[j].key)
  }

  ghost predicate Current<K, V>(ops: seq<Op<K, V>>, es: seq<Item<K, V>>) {
    forall i :: 0 <= i < |es| ==> LastValue(ops, es[i].key) == Some(es[i].value)
  }

  ghost predicate Sound<K, V>(ops: seq<Op<K, V>>, es: seq<Item<K, V>>) {
    InOrder(ops, es) && Current(ops, es)
  }

  ghost predicate Absent<K, V>(es: seq<Item<K, V>>, key: K) {
    forall i :: 0 <= i < |es| ==> es[i].key != key
  }

  lemma OrderedIsDistinct<K, V>(ops: seq<Op<K, V>>, es: seq<Item<K, V>>)
    requires InOrder(ops, es)
    ensures DistinctKeys(es)
  {}

  lemma RemovedSound<K, V>(ops: seq<Op<K, V>>, es: seq<Item<K, V>>, n: nat)
    requires Sound(ops, es) && n < |es|
    ensures Sound(ops, RemoveAt(es, n)) && Absent(RemoveAt(es, n), es[n].key)
  {
    hide LastTouch, LastValue;
    OrderedIsDistinct(ops, es);
  }

  lemma SuffixSound<K, V>(ops: seq<Op<K, V>>, es: seq<Item<K, V>>, n: nat)
    requires Sound(ops, es) && n <= |es|
    ensures Sound(ops, es[n..])
  {
    hide LastTouch, LastValue;
  }

  lemma PurgedSound<K, V>(c: Config, ops: seq<Op<K, V>>, es: seq<Item<K, V>>, now: int)
    requires Sound(ops, es)
    ensures Sound(ops, Purge(c, es, now)) && |Purge(c, es, now)| <= |es|
  {
    var n := PurgeIsLongestPrefix(c, es, now);
    SuffixSound(ops, es, n);
  }

  lemma LastSnoc<K, V>(ops: seq<Op<K, V>>, op: Op<K, V>, key: K)
    ensures LastTouch(ops + [op], key) == if Touches(op, key) then |ops| + 1 else LastTouch(ops, key)
    ensures LastValue(ops + [op], key)
         == if (op.Set? || op.SetWithExpire?) && op.key == key then Some(op.value) else LastValue(ops, key)
  {
    assert (ops + [op])[..|ops|] == ops;
  }

  /** An operation leaves entries of other keys as they were. */
  lemma UntouchedSound<K, V>(ops: seq<Op<K, V>>, op: Op<K, V>, es: seq<Item<K, V>>)
    requires Sound(ops, es) && (op.Delete? || Absent(es, op.key))
    ensures Sound(ops + [op], es)
  {
    hide LastTouch, LastValue;
    forall i | 0 <= i < |es|
      ensures LastTouch(ops + [op], es[i].key) == LastTouch(ops, es[i].key)
      ensures LastValue(ops + [op], es[i].key) == LastValue(ops, es[i].key)
    {
      LastSnoc(ops, op, es[i].key);
    }
  }

  /** The entry an operation touched goes behind all others. */
  lemma TouchedSound<K, V>(ops: seq<Op<K, V>>, op: Op<K, V>, es: seq<Item<K, V>>, x: Item<K, V>)
    requires Sound(ops, es) && Absent(es, op.key) && Touches(op, x.key)
    requires Some(x.value) == if op.Get? then LastValue(ops, op.key) else Some(op.value)
    ensures Sound(ops + [op], es + [x])
  {
    hide LastTouch, LastValue;
    UntouchedSound(ops, op, es);
    LastSnoc(ops, op, x.key);
    forall i | 0 <= i < |es|
      ensures LastTouch(ops + [op], es[i].key) < |ops| + 1
    {
      LastSnoc(ops, op, es[i].key);
    }
  }

  lemma InsertedSound<K, V>(c: Config, ops: seq<Op<K, V>>, op: Op<K, V>, es: seq<Item<K, V>>, x: Item<K, V>)
    requires Sound(ops, es) && (op.Set? || op.SetWithExpire?) && op.key == x.key && op.value == x.value
    requires c.maxSize > 0 ==> |es| <= c.maxSize
    ensures Sound(ops + [op], Insert(c, es, x))
    ensures c.maxSize > 0 ==> |Insert(c, es, x)| <= c.maxSize
  {
    hide Sound, LastValue;
    var i := Place(es, x.key);
    if i >= 0 {
      RemovedSound(ops, es, i);
      TouchedSound(ops, op, RemoveAt(es, i), x);
    } else {
      TouchedSound(ops, op, es, x);
      SuffixSound(ops + [op], es + [x], 1);
    }
  }

  /**
   * One operation: the entries stay in the order of their last touch, hold the
   * last values set, and stay within a positive maxSize.
   */
  lemma ApplySound<K, V>(c: Config, ops: seq<Op<K, V>>, op: Op<K, V>, es: seq<Item<K, V>>)
    requires Sound(ops, es) && (c.maxSize > 0 ==> |es| <= c.maxSize)
    ensures Sound(ops + [op], Apply(c, es, op))
    ensures c.maxSize > 0 ==> |Apply(c, es, op)| <= c.maxSize
  {
    hide Sound, Insert;
    var i := Place(es, op.key);
    match op
    case Get(key, now, later) =>
      if i < 0 {
        UntouchedSound(ops, op, es);
      } else {
        RemovedSound(ops, es, i);
        UntouchedSound(ops, op, RemoveAt(es, i));
        PurgedSound(c, ops + [op], RemoveAt(es, i), later);
        ValueAt(ops, es, i);
        TouchedSound(ops, op, RemoveAt(es, i), es[i]);
        TouchedSound(ops, op, RemoveAt(es, i), es[i].(expires := later + c.maxAge));
      }
    case Set(key, value, now, later) =>
      var x := Item(key, value, if c.maxAge > 0 then now + c.maxAge else 0);
      InsertedSound(c, ops, op, es, x);
      PurgedSound(c, ops + [op], Insert(c, es, x), later);
    case SetWithExpire(key, value, expires, now) =>
      InsertedSound(c, ops, op, es, Item(key, value, expires));
      PurgedSound(c, ops + [op], Insert(c, es, Item(key, value, expires)), now);
    case Delete(key) =>
      UntouchedSound(ops, op, es);
      if i >= 0 {
        RemovedSound(ops, es, i);
        UntouchedSound(ops, op, RemoveAt(es, i));
      }
  }

  lemma ValueAt<K, V>(ops: seq<Op<K, V>>, es: seq<Item<K, V>>, i: nat)
    requires Sound(ops, es) && i < |es|
    ensures LastValue(ops, es[i].key) == Some(es[i].value)
  {}

  /** Over every run: in last-touch order, with the last values set, within the size. */
  lemma {:induction false} RunSound<K, V>(c: Config, ops: seq<Op<K, V>>)
    ensures Sound(ops, Run(c, ops)) && DistinctKeys(Run(c, ops))
    ensures c.maxSize > 0 ==> |Run(c, ops)| <= c.maxSize
    decreases |ops|
  {
    hide Apply;
    if ops != [] {
      var n := |ops| - 1;
      RunSound(c, ops[..n]);
      ApplySound(c, ops[..n], ops[n], Run(c, ops[..n]));
      assert ops[..n] + [ops[n]] == ops;
    }
    OrderedIsDistinct(ops, Run(c, ops));
  }

  /** Get after any run: the last value set, and never an expired one unless stale or unlimited. */
  lemma AnswerIsLastSet<K, V>(c: Config, ops: seq<Op<K, V>>, key: K, now: int)
    ensures var es := Run(c, ops);
      Answer(c, es, key, now).Some? ==>
        && Answer(c, es, key, now) == LastValue(ops, key)
        && exists i :: 0 <= i < |es| && es[i].key == key && (c.Expires() ==> es[i].expires > now)
  {
    RunSound(c, ops);
  }

  // ---------------------------------------------------------------- nothing is lost without a reason

  ghost predicate Holds<K, V>(es: seq<Item<K, V>>, x: Item<K, V>) {
    exists i :: 0 <= i < |es| && es[i] == x
  }

  lemma PurgeKeeps<K, V>(c: Config, es: seq<Item<K, V>>, now: int, x: Item<K, V>)
    requires Holds(es, x)
    ensures Holds(Purge(c, es, now), x) || (c.Expires() && x.expires <= now)
  {
    var j :| 0 <= j < |es| && es[j] == x;
    var n := PurgeIsLongestPrefix(c, es, now);
    if j >= n {
      assert es[n..][j - n] == x;
    }
  }

  lemma RemoveKeeps<K, V>(es: seq<Item<K, V>>, i: nat, j: nat)
    requires i < |es| && j < |es| && i != j
    ensures Holds(RemoveAt(es, i), es[j])
  {
    assert RemoveAt(es, i)[if j < i then j else j - 1] == es[j];
  }

  lemma AppendKeeps<K, V>(es: seq<Item<K, V>>, x: Item<K, V>, y: Item<K, V>)
    requires Holds(es, y)
    ensures Holds(es + [x], y)
  {
    var j :| 0 <= j < |es| && es[j] == y;
    assert (es + [x])[j] == y;
  }

  /** The clock reading by which an operation throws out what has expired. */
  function PurgeTime<K, V>(op: Op<K, V>): int
    requires !op.Delete?
  {
    if op.SetWithExpire? then op.now else op.later
  }

  /**
   * An entry of another key goes only when it has expired, or when it is the
   * least recently touched one of a full cache and a new key comes in.
   */
  lemma OthersStay<K, V>(c: Config, es: seq<Item<K, V>>, op: Op<K, V>, j: nat)
    requires j < |es| && es[j].key != op.key
    requires c.maxSize > 0 ==> |es| <= c.maxSize
    ensures
      || Holds(Apply(c, es, op), es[j])
      || (c.Expires() && !op.Delete? && es[j].expires <= PurgeTime(op))
      || (j == 0 && |es| == c.maxSize && (op.Set? || op.SetWithExpire?) && Place(es, op.key) < 0)
  {
    hide Insert, Purge, RemoveAt, Place, Holds;
    var i := Place(es, op.key);
    assert Holds(es, es[j]) by { HoldsAt(es, j); }
    match op
    case Set(key, value, now, later) =>
      InsertThenPurge(c, es, Item(key, value, if c.maxAge > 0 then now + c.maxAge else 0), later, j);
    case SetWithExpire(key, value, expires, now) =>
      InsertThenPurge(c, es, Item(key, value, expires), now, j);
    case Get(key, now, later) =>
      if i >= 0 {
        RemoveKeeps(es, i, j);
        PurgeKeeps(c, RemoveAt(es, i), later, es[j]);
        AppendKeeps(RemoveAt(es, i), es[i], es[j]);
        AppendKeeps(RemoveAt(es, i), es[i].(expires := later + c.maxAge), es[j]);
      }
    case Delete(key) =>
      if i >= 0 {
        RemoveKeeps(es, i, j);
      }
  }

  lemma InsertThenPurge<K, V>(c: Config, es: seq<Item<K, V>>, x: Item<K, V>, now: int, j: nat)
    requires j < |es| && es[j].key != x.key
    requires c.maxSize > 0 ==> |es| <= c.maxSize
    ensures
      || Holds(Purge(c, Insert(c, es, x), now), es[j])
      || (c.Expires() && es[j].expires <= now)
      || (j == 0 && |es| == c.maxSize && Place(es, x.key) < 0)
  {
    hide Insert, Purge, Place, Holds;
    InsertKeeps(c, es, x, j);
    if Holds(Insert(c, es, x), es[j]) {
      PurgeKeeps(c, Insert(c, es, x), now, es[j]);
    }
  }

  lemma HoldsAt<K, V>(es: seq<Item<K, V>>, j: nat)
    requires j < |es|
    ensures Holds(es, es[j])
  {}

  lemma InsertKeeps<K, V>(c: Config, es: seq<Item<K, V>>, x: Item<K, V>, j: nat)
    requires j < |es| && es[j].key != x.key
    requires c.maxSize > 0 ==> |es| <= c.maxSize
    ensures Holds(Insert(c, es, x), es[j]) || (j == 0 && |es| == c.maxSize && Place(es, x.key) < 0)
  {
    hide Place, RemoveAt, Holds;
    HoldsAt(es, j);
    AppendKeeps(es, x, es[j]);
    if Place(es, x.key) >= 0 {
      RemoveKeeps(es, Place(es, x.key), j);
      AppendKeeps(RemoveAt(es, Place(es, x.key)), x, es[j]);
    } else if j > 0 {
      DropKeeps(es + [x], j);
    }
  }

  lemma DropKeeps<K, V>(es: seq<Item<K, V>>, j: nat)
    requires 0 < j < |es|
    ensures Holds(es[1..], es[j])
  {
    assert es[1..][j - 1] == es[j];
  }

  lemma {:induction false} ExpiredThenPurged<K, V>(c: Config, es: seq<Item<K, V>>, now: int)
    ensures es == Expired(c, es, now) + Purge(c, es, now)
  {
    if c.Expires() && es != [] && es[0].expires <= now {
      ExpiredThenPurged(c, es[1..], now);
      assert es == [es[0]] + es[1..];
    }
  }

  lemma OverflowThenInsert<K, V>(c: Config, es: seq<Item<K, V>>, x: Item<K, V>)
    requires Place(es, x.key) < 0
    ensures es + [x] == Overflow(c, es, x) + Insert(c, es, x)
  {}

  /** Every entry is kept, reported to the callback, or replaced: nothing is dropped in silence. */
  lemma EveryLossIsReported<K, V>(c: Config, es: seq<Item<K, V>>, op: Op<K, V>)
    ensures var i := Place(es, op.key);
      var r, gone := Apply(c, es, op), Evicted(c, es, op);
      match op
      case Get(_, _, _) =>
        (i < 0 || Hit(c, es, op.key, op.now) ==> gone == []) && (i >= 0 && !Hit(c, es, op.key, op.now) ==>
          gone + r == [es[i]] + RemoveAt(es, i))
      case Delete(_) => if i < 0 then gone + r == es else gone + r == [es[i]] + RemoveAt(es, i)
      case _ =>
        && (i < 0 ==> |gone + r| == |es| + 1 && (gone + r)[..|es|] == es && (gone + r)[|es|].key == op.key)
        && (i >= 0 ==>
              && |gone + r| == |es| && (gone + r)[..|es| - 1] == RemoveAt(es, i)
              && (gone + r)[|es| - 1].key == op.key)
  {
    hide Insert, Overflow, RemoveAt, Place, Purge, Expired;
    var i := Place(es, op.key);
    match op
    case Get(_, _, later) =>
      if i >= 0 {
        ExpiredThenPurged(c, RemoveAt(es, i), later);
      }
    case Set(key, value, now, later) =>
      SetLoss(c, es, Item(key, value, if c.maxAge > 0 then now + c.maxAge else 0), later);
    case SetWithExpire(key, value, expires, now) =>
      SetLoss(c, es, Item(key, value, expires), now);
    case Delete(_) =>
  }

  lemma SetLoss<K, V>(c: Config, es: seq<Item<K, V>>, x: Item<K, V>, now: int)
    ensures var i, r := Place(es, x.key), Insert(c, es, x);
      var all := Overflow(c, es, x) + Expired(c, r, now) + Purge(c, r, now);
      && (i < 0 ==> |all| == |es| + 1 && all[..|es|] == es && all[|es|].key == x.key)
      && (i >= 0 ==> |all| == |es| && all[..|es| - 1] == RemoveAt(es, i) && all[|es| - 1].key == x.key)
  {
    hide Insert, Overflow, RemoveAt, Place, Purge, Expired;
    SetParts(c, es, x, now);
  }

  lemma SetParts<K, V>(c: Config, es: seq<Item<K, V>>, x: Item<K, V>, now: int)
    ensures var i := Place(es, x.key);
      Overflow(c, es, x) + Expired(c, Insert(c, es, x), now) + Purge(c, Insert(c, es, x), now)
        == if i < 0 then es + [x] else RemoveAt(es, i) + [x]
  {
    hide Place, RemoveAt;
    ExpiredThenPurged(c, Insert(c, es, x), now);
    var o, e, p := Overflow(c, es, x), Expired(c, Insert(c, es, x), now), Purge(c, Insert(c, es, x), now);
    assert o + e + p == o + (e + p);
    if Place(es, x.key) < 0 {
      OverflowThenInsert(c, es, x);
    }
  }
}
