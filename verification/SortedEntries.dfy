/** Sorted association lists: the abstract value of a skip list. */
module SortedEntries {
  import opened Ints
  import opened Options

  datatype Entry<+V> = Entry(key: uint64, value: Option<V>)

  ghost predicate Sorted<V>(es: seq<Entry<V>>) {
    forall i, j :: 0 <= i < j < |es| ==> es[i].key < es[j].key
  }

  /** The first position whose key is not below `key`. */
  ghost function Rank<V>(es: seq<Entry<V>>, key: uint64): (r: nat)
    ensures r <= |es|
    ensures forall i :: 0 <= i < r ==> es[i].key < key
    ensures r < |es| ==> key <= es[r].key
  {
    if es == [] || key <= es[0].key then 0 else 1 + Rank(es[1..], key)
  }

  ghost predicate HasKey<V>(es: seq<Entry<V>>, key: uint64) {
    var r := Rank(es, key);
    r < |es| && es[r].key == key
  }

  ghost function Lookup<V>(es: seq<Entry<V>>, key: uint64): Option<V> {
    if HasKey(es, key) then es[Rank(es, key)].value else None
  }

  /** How many keys are at most `key`. */
  ghost function UpperRank<V>(es: seq<Entry<V>>, key: uint64): nat {
    Rank(es, key) + if HasKey(es, key) then 1 else 0
  }

  ghost function Put<V>(es: seq<Entry<V>>, key: uint64, value: Option<V>): seq<Entry<V>> {
    var r := Rank(es, key);
    es[..r] + [Entry(key, value)] + (if HasKey(es, key) then es[r + 1..] else es[r..])
  }

  ghost function Drop<V>(es: seq<Entry<V>>, key: uint64): seq<Entry<V>> {
    if HasKey(es, key) then es[..Rank(es, key)] + es[Rank(es, key) + 1..] else es
  }

  // ---------- the list as a map ----------

  ghost function AsMap<V>(es: seq<Entry<V>>): map<uint64, Option<V>> {
    if es == [] then map[] else AsMap(es[..|es| - 1])[es[|es| - 1].key := es[|es| - 1].value]
  }

  lemma {:induction false} AsMapAt<V>(es: seq<Entry<V>>, i: nat)
    requires Sorted(es) && i < |es|
    ensures es[i].key in AsMap(es) && AsMap(es)[es[i].key] == es[i].value
  {
    if i < |es| - 1 {
      AsMapAt(es[..|es| - 1], i);
      assert es[i].key < es[|es| - 1].key;
    }
  }

  lemma {:induction false} KeyInMap<V>(es: seq<Entry<V>>, key: uint64) returns (i: nat)
    requires key in AsMap(es)
    ensures i < |es| && es[i].key == key
  {
    if es[|es| - 1].key == key {
      i := |es| - 1;
    } else {
      i := KeyInMap(es[..|es| - 1], key);
    }
  }

  /** A map that agrees with a sorted list both ways is its map. */
  lemma IsAsMap<V>(es: seq<Entry<V>>, m: map<uint64, Option<V>>)
    requires Sorted(es)
    requires forall i :: 0 <= i < |es| ==> es[i].key in m && m[es[i].key] == es[i].value
    requires forall k :: k in m ==> exists i :: 0 <= i < |es| && es[i].key == k
    ensures AsMap(es) == m
  {
    forall k
      ensures k in m ==> k in AsMap(es) && AsMap(es)[k] == m[k]
      ensures k in AsMap(es) ==> k in m
    {
      if k in m {
        var i :| 0 <= i < |es| && es[i].key == k;
        AsMapAt(es, i);
      } else if k in AsMap(es) {
        var i := KeyInMap(es, k);
      }
    }
  }

  /** The position of a present key is its rank. */
  lemma RankOfKey<V>(es: seq<Entry<V>>, i: nat)
    requires Sorted(es) && i < |es|
    ensures HasKey(es, es[i].key) && Rank(es, es[i].key) == i
  {}

  /** Lookup answers from the map. */
  lemma LookupInMap<V>(es: seq<Entry<V>>, key: uint64)
    requires Sorted(es)
    ensures HasKey(es, key) <==> key in AsMap(es)
    ensures Lookup(es, key) == if key in AsMap(es) then AsMap(es)[key] else None
  {
    if HasKey(es, key) {
      AsMapAt(es, Rank(es, key));
    } else if key in AsMap(es) {
      var i := KeyInMap(es, key);
      RankOfKey(es, i);
    }
  }

  /** What stands where after Put; d is 1 when the list grows. */
  lemma PutAt<V>(es: seq<Entry<V>>, key: uint64, value: Option<V>) returns (r: nat, d: nat)
    requires Sorted(es)
    ensures d <= 1 && r + 1 <= |es| + d && |Put(es, key, value)| == |es| + d
    ensures Put(es, key, value)[r] == Entry(key, value)
    ensures forall i :: 0 <= i < r ==> Put(es, key, value)[i] == es[i] && es[i].key < key
    ensures forall i :: r < i < |es| + d ==> Put(es, key, value)[i] == es[i - d] && key < es[i - d].key
    ensures forall i :: 0 <= i < |es| && es[i].key != key ==> i < r || r < i + d
  {
    r, d := Rank(es, key), if HasKey(es, key) then 0 else 1;
    hide Rank, HasKey, Put;
    if d == 0 {
      PutOver(es, key, value);
    } else {
      PutNew(es, key, value);
    }
  }

  lemma PutOver<V>(es: seq<Entry<V>>, key: uint64, value: Option<V>)
    requires Sorted(es) && HasKey(es, key)
    ensures var r := Rank(es, key);
      r < |es| && es[r].key == key && Put(es, key, value) == es[r := Entry(key, value)]
  {
    hide Rank;
  }

  lemma PutNew<V>(es: seq<Entry<V>>, key: uint64, value: Option<V>)
    requires Sorted(es) && !HasKey(es, key)
    ensures var r := Rank(es, key);
      (r < |es| ==> es[r].key > key) && Put(es, key, value) == es[..r] + [Entry(key, value)] + es[r..]
  {
    hide Rank;
  }

  lemma PutSorted<V>(es: seq<Entry<V>>, key: uint64, value: Option<V>)
    requires Sorted(es)
    ensures Sorted(Put(es, key, value))
  {
    hide Rank, HasKey, Put;
    var r, d := PutAt(es, key, value);
  }

  /** Put updates the map at one key. */
  lemma PutUpdatesMap<V>(es: seq<Entry<V>>, key: uint64, value: Option<V>)
    requires Sorted(es)
    ensures AsMap(Put(es, key, value)) == AsMap(es)[key := value]
  {
    hide Rank, HasKey, Put, AsMap, Sorted;
    var r, d := PutAt(es, key, value);
    var fs, m := Put(es, key, value), AsMap(es)[key := value];
    forall i | 0 <= i < |fs|
      ensures fs[i].key in m && m[fs[i].key] == fs[i].value
    {
      if i != r {
        AsMapAt(es, if i < r then i else i - d);
      }
    }
    forall k | k in m
      ensures exists i :: 0 <= i < |fs| && fs[i].key == k
    {
      if k == key {
        assert fs[r].key == k;
      } else {
        var i := KeyInMap(es, k);
        assert fs[if i < r then i else i + d].key == k;
      }
    }
    PutSorted(es, key, value);
    IsAsMap(fs, m);
  }

  lemma DropAt<V>(es: seq<Entry<V>>, key: uint64) returns (r: nat)
    requires Sorted(es) && HasKey(es, key)
    ensures r < |es| == |Drop(es, key)| + 1 && es[r].key == key
    ensures forall i :: 0 <= i < |es| - 1 ==> Drop(es, key)[i] == es[if i < r then i else i + 1]
  {
    hide Sorted;
    r := Rank(es, key);
  }

  /** Drop keeps the list sorted and forgets exactly one key. */
  lemma DropUpdatesMap<V>(es: seq<Entry<V>>, key: uint64)
    requires Sorted(es)
    ensures Sorted(Drop(es, key))
    ensures AsMap(Drop(es, key)) == AsMap(es) - {key}
  {
    hide Rank, HasKey, AsMap;
    LookupInMap(es, key);
    if HasKey(es, key) {
      var r := DropAt(es, key);
      var fs, m := Drop(es, key), AsMap(es) - {key};
      forall i | 0 <= i < |fs|
        ensures fs[i].key in m && m[fs[i].key] == fs[i].value
      {
        AsMapAt(es, if i < r then i else i + 1);
      }
      forall k | k in m
        ensures exists i :: 0 <= i < |fs| && fs[i].key == k
      {
        var i := KeyInMap(es, k);
        assert fs[if i < r then i else i - 1].key == k;
      }
      IsAsMap(fs, m);
    }
  }

  /** A sorted list is determined by its map. */
  lemma {:induction false} SortedUnique<V>(es: seq<Entry<V>>, fs: seq<Entry<V>>)
    requires Sorted(es) && Sorted(fs) && AsMap(es) == AsMap(fs)
    ensures es == fs
    decreases |es|
  {
    var n, m := |es|, |fs|;
    if n > 0 {
      AsMapAt(es, n - 1);
      var j := KeyInMap(fs, es[n - 1].key);
      AsMapAt(fs, m - 1);
      var i := KeyInMap(es, fs[m - 1].key);
      assert es[n - 1] == fs[m - 1];
      ButLast(es);
      ButLast(fs);
      SortedUnique(es[..n - 1], fs[..m - 1]);
    } else if m > 0 {
      AsMapAt(fs, m - 1);
    }
  }

  lemma ButLast<V>(es: seq<Entry<V>>)
    requires Sorted(es) && es != []
    ensures AsMap(es[..|es| - 1]) == AsMap(es) - {es[|es| - 1].key}
  {
    var n := |es|;
    if es[n - 1].key in AsMap(es[..n - 1]) {
      var i := KeyInMap(es[..n - 1], es[n - 1].key);
    }
  }

  // ---------- runs ----------

  datatype Op<+V> = OpInsert(key: uint64, value: Option<V>) | OpRemove(key: uint64) | OpClear

  ghost function Run<V>(es: seq<Entry<V>>, ops: seq<Op<V>>): seq<Entry<V>>
    decreases |ops|
  {
    if ops == [] then es else
      var fs := match ops[0]
        case OpInsert(k, v) => Put(es, k, v)
        case OpRemove(k) => Drop(es, k)
        case OpClear => [];
      Run(fs, ops[1..])
  }

  ghost function RunMap<V>(m: map<uint64, Option<V>>, ops: seq<Op<V>>): map<uint64, Option<V>>
    decreases |ops|
  {
    if ops == [] then m else
      var m' := match ops[0]
        case OpInsert(k, v) => m[k := v]
        case OpRemove(k) => m - {k}
        case OpClear => map[];
      RunMap(m', ops[1..])
  }

  /** Any run of updates is a run on the map, and the list stays sorted. */
  lemma {:induction false} RunRefinesMap<V>(es: seq<Entry<V>>, ops: seq<Op<V>>)
    requires Sorted(es)
    ensures Sorted(Run(es, ops)) && AsMap(Run(es, ops)) == RunMap(AsMap(es), ops)
    decreases |ops|
  {
    if ops != [] {
      match ops[0]
      case OpInsert(k, v) =>
        PutSorted(es, k, v);
        PutUpdatesMap(es, k, v);
        RunRefinesMap(Put(es, k, v), ops[1..]);
      case OpRemove(k) =>
        DropUpdatesMap(es, k);
        RunRefinesMap(Drop(es, k), ops[1..]);
      case OpClear =>
        RunRefinesMap<V>([], ops[1..]);
    }
  }
}
