/**
 * Nodes of the anytls skip list and the arithmetic of chains.
 *
 * A chain is the ghost view of a list: the sentinel followed by every node in
 * list order.  A node's tower `next` must link each level i to the next node
 * of the chain that is taller than i; the lemmas here say how those targets
 * move when a node enters or leaves the chain.
 */
module SkipListChains {
  import opened Ints
  import opened Options
  import opened Seqs
  import opened SortedEntries

  const MAX_LEVEL: nat := 40

  class Node<V> {
    const key: uint64
    var value: Option<V>
    const next: array<Node?<V>>

    constructor (height: nat, key: uint64, value: Option<V>)
      ensures this.key == key && this.value == value
      ensures fresh(next) && next.Length == height
      ensures forall i :: 0 <= i < height ==> next[i] == null
    {
      this.key := key;
      this.value := value;
      next := new Node?<V>[height](_ => null);
    }
  }

  // ---------- the ghost view ----------

  /** The first position at or after p whose node is taller than level i. */
  ghost function NextTall<V>(c: seq<Node<V>>, p: nat, i: nat): (q: nat)
    requires p <= |c|
    ensures p <= q <= |c|
    ensures q < |c| ==> i < c[q].next.Length
    decreases |c| - p
  {
    if p == |c| || i < c[p].next.Length then p else NextTall(c, p + 1, i)
  }

  lemma NextTallLe<V>(c: seq<Node<V>>, p: nat, r: nat, i: nat)
    requires p <= r < |c| && i < c[r].next.Length
    ensures NextTall(c, p, i) <= r
    decreases r - p
  {
    if p < r {
      NextTallLe(c, p + 1, r, i);
    }
  }

  /** Keys and values of every node after the sentinel. */
  ghost function Values<V>(c: seq<Node<V>>): (es: seq<Entry<V>>)
    requires 1 <= |c|
    reads set n | n in c
    ensures |es| == |c| - 1
  {
    seq(|c| - 1, i requires 0 <= i < |c| - 1 reads set n | n in c => Entry(c[i + 1].key, c[i + 1].value))
  }

  ghost function At<V>(c: seq<Node<V>>, q: nat): Node?<V> {
    if q < |c| then c[q] else null
  }

  ghost predicate Links<V>(c: seq<Node<V>>)
    reads set n | n in c :: n.next
  {
    forall p, i :: 0 <= p < |c| && 0 <= i < c[p].next.Length ==>
      c[p].next[i] == At(c, NextTall(c, p + 1, i))
  }

  ghost predicate Separate<V>(c: seq<Node<V>>) {
    forall p, q :: 0 <= p < q < |c| ==> c[p] != c[q] && c[p].next != c[q].next
  }

  lemma SeparateAt<V>(c: seq<Node<V>>, p: nat, q: nat)
    requires Separate(c) && p < |c| && q < |c| && p != q
    ensures c[p] != c[q] && c[p].next != c[q].next
  {
    var r, s := if p < q then p else q, if p < q then q else p;
    assert r < s;
  }

  ghost predicate Ascending<V>(c: seq<Node<V>>) {
    forall p, q :: 1 <= p < q < |c| ==> c[p].key < c[q].key
  }

  /** The first position after the sentinel whose key is not below `key`. */
  ghost function LowerIdx<V>(c: seq<Node<V>>, key: uint64, p: nat := 1): (q: nat)
    requires 1 <= p <= |c|
    ensures p <= q <= |c|
    ensures q < |c| ==> key <= c[q].key
    decreases |c| - p
  {
    if p == |c| || key <= c[p].key then p else LowerIdx(c, key, p + 1)
  }

  lemma LowerIdxAbove<V>(c: seq<Node<V>>, key: uint64, p: nat, r: nat)
    requires 1 <= p <= |c| && p <= r < LowerIdx(c, key, p)
    ensures c[r].key < key
    decreases r - p
  {
    if p < r {
      LowerIdxAbove(c, key, p + 1, r);
    }
  }

  ghost function UpperIdx<V>(c: seq<Node<V>>, key: uint64): (q: nat)
    requires 1 <= |c|
  {
    var l := LowerIdx(c, key);
    if l < |c| && c[l].key == key then l + 1 else l
  }

  /** Is position p the last one at level i whose key is below `key`? */
  ghost predicate IsPrev<V>(c: seq<Node<V>>, key: uint64, i: nat, p: nat) {
    && 1 <= |c| && p < LowerIdx(c, key) && i < c[p].next.Length
    && LowerIdx(c, key) <= NextTall(c, p + 1, i)
  }

  lemma InsertedAt<V>(c: seq<Node<V>>, k: nat, n: Node<V>, p: nat)
    requires k <= |c| && p < |c|
    ensures InsertAt(c, k, n)[if p < k then p else p + 1] == c[p]
  {}

  lemma NextTallInsert<V>(c: seq<Node<V>>, k: nat, n: Node<V>, p: nat, i: nat)
    requires p <= |c| && k <= |c|
    ensures var c' := InsertAt(c, k, n);
            var q := NextTall(c, p, i);
            if p <= k then
              NextTall(c', p, i) == (if q < k then q else if i < n.next.Length then k else q + 1)
            else NextTall(c', p + 1, i) == q + 1
    decreases |c| - p
  {
    var c' := InsertAt(c, k, n);
    if p < k {
      assert c'[p] == c[p];
      NextTallInsert(c, k, n, p + 1, i);
    } else if p == k {
      assert c'[k] == n;
      NextTallShift(c, k, n, p, i);
    } else {
      NextTallShift(c, k, n, p, i);
    }
  }

  lemma NextTallShift<V>(c: seq<Node<V>>, k: nat, n: Node<V>, p: nat, i: nat)
    requires k <= p <= |c|
    ensures NextTall(InsertAt(c, k, n), p + 1, i) == NextTall(c, p, i) + 1
    decreases |c| - p
  {
    if p < |c| {
      assert (InsertAt(c, k, n))[p + 1] == c[p];
      NextTallShift(c, k, n, p + 1, i);
    }
  }

  /** One link of a level, seen through the chain. */
  lemma Follow<V>(c: seq<Node<V>>, p: nat, i: nat)
    requires Links(c) && p < |c| && i < c[p].next.Length
    ensures c[p].next[i] == At(c, NextTall(c, p + 1, i))
  {}

  /** How a node reached along a level compares with the searched key. */
  lemma Compare<V>(c: seq<Node<V>>, key: uint64, t: nat)
    requires Wf(c) && 1 <= t < |c|
    ensures 1 <= LowerIdx(c, key) <= |c|
    ensures c[t].key < key <==> t < LowerIdx(c, key)
    ensures c[t].key == key ==> t == LowerIdx(c, key)
    ensures key < c[t].key ==> Found(c, key) == null || LowerIdx(c, key) < t
  {
    if t < LowerIdx(c, key) {
      LowerIdxAbove(c, key, 1, t);
    }
  }

  /** The bottom level has every node. */
  lemma Bottom<V>(c: seq<Node<V>>, p: nat)
    requires Wf(c) && p < |c|
    ensures NextTall(c, p + 1, 0) == p + 1
    ensures 0 < c[p].next.Length
  {}

  ghost predicate Wf<V>(c: seq<Node<V>>) {
    && 1 <= |c| && c[0].next.Length == MAX_LEVEL
    && Separate(c) && Ascending(c)
    && forall p :: 1 <= p < |c| ==> 1 <= c[p].next.Length <= MAX_LEVEL
  }

  ghost function Found<V>(c: seq<Node<V>>, key: uint64): Node?<V>
    requires 1 <= |c|
  {
    var q := LowerIdx(c, key);
    if q < |c| && c[q].key == key then c[q] else null
  }

  /** Past position p, level i has nothing up to and including `key`. */
  ghost predicate Passed<V>(c: seq<Node<V>>, key: uint64, p: nat, i: nat)
    requires p < |c|
  {
    var t := NextTall(c, p + 1, i);
    t < |c| ==> key < c[t].key
  }

  lemma PassedBottom<V>(c: seq<Node<V>>, key: uint64, p: nat)
    requires Wf(c) && p < LowerIdx(c, key) && Passed(c, key, p, 0)
    ensures LowerIdx(c, key) == p + 1 && Found(c, key) == null
  {
    if p + 1 < LowerIdx(c, key) {
      LowerIdxAbove(c, key, 1, p + 1);
    }
  }

  // ---------- splicing ----------

  /** Tower positions: ps[j] is the last position of level j below `key`. */
  ghost predicate Tower<V>(c: seq<Node<V>>, key: uint64, ps: seq<nat>) {
    1 <= |c| && forall j :: 0 <= j < |ps| ==> IsPrev(c, key, j, ps[j])
  }

  /** The towers of the chain as they stand. */
  ghost function Towers<V>(c: seq<Node<V>>): (ts: seq<seq<Node?<V>>>)
    reads set n | n in c :: n.next
    ensures |ts| == |c|
  {
    seq(|c|, p requires 0 <= p < |c| reads set n | n in c :: n.next => c[p].next[..])
  }

  /** Do these towers link the chain? */
  ghost predicate Linked<V>(c: seq<Node<V>>, ts: seq<seq<Node?<V>>>) {
    && |ts| == |c|
    && (forall p :: 0 <= p < |c| ==> |ts[p]| == c[p].next.Length)
    && (forall p, i :: 0 <= p < |c| && 0 <= i < |ts[p]| ==> ts[p][i] == At(c, NextTall(c, p + 1, i)))
  }

  lemma TowersLinked<V>(c: seq<Node<V>>)
    requires Links(c)
    ensures Linked(c, Towers(c))
  {}

  lemma LinkedAt<V>(c: seq<Node<V>>, ts: seq<seq<Node?<V>>>, p: nat, i: nat)
    requires Linked(c, ts) && p < |c| && i < c[p].next.Length
    ensures |ts| == |c| && |ts[p]| == c[p].next.Length && ts[p][i] == At(c, NextTall(c, p + 1, i))
  {}

  /** The old node at p after the first m levels of n are spliced in. */
  ghost predicate SplicedNode<V>(c: seq<Node<V>>, ts: seq<seq<Node?<V>>>, ps: seq<nat>, n: Node<V>, m: nat, p: nat)
    requires p < |c| == |ts| && m <= |ps|
    reads c[p].next
  {
    && |ts[p]| == c[p].next.Length
    && forall j :: 0 <= j < |ts[p]| ==> c[p].next[j] == if j < m && p == ps[j] then n else ts[p][j]
  }

  lemma UnSpliced<V>(c: seq<Node<V>>, ts: seq<seq<Node?<V>>>, ps: seq<nat>, n: Node<V>)
    requires ts == Towers(c)
    ensures forall p :: 0 <= p < |c| ==> SplicedNode(c, ts, ps, n, 0, p)
  {}

  lemma AscendingAt<V>(c: seq<Node<V>>, p: nat, q: nat)
    requires Ascending(c) && 1 <= p < q < |c|
    ensures c[p].key < c[q].key
  {}

  lemma FoundNothing<V>(c: seq<Node<V>>, key: uint64, q: nat)
    requires 1 <= |c| && Ascending(c) && Found(c, key) == null && LowerIdx(c, key) <= q < |c|
    ensures key < c[q].key
  {
    hide LowerIdx, Ascending;
    if LowerIdx(c, key) < q {
      AscendingAt(c, LowerIdx(c, key), q);
    }
  }

  lemma AscendingInsertAt<V>(c: seq<Node<V>>, n: Node<V>, k: nat, p: nat, q: nat)
    requires 1 <= |c| && Ascending(c) && Found(c, n.key) == null && k == LowerIdx(c, n.key) && 1 <= p < q <= |c|
    ensures InsertAt(c, k, n)[p].key < InsertAt(c, k, n)[q].key
  {
    hide LowerIdx, InsertAt, Ascending, Found;
    if p != k {
      InsertedAt(c, k, n, if p < k then p else p - 1);
    }
    if q != k {
      InsertedAt(c, k, n, if q < k then q else q - 1);
    }
    if p == k {
      FoundNothing(c, n.key, q - 1);
    } else if q == k {
      LowerIdxAbove(c, n.key, 1, p);
    } else {
      AscendingAt(c, if p < k then p else p - 1, if q < k then q else q - 1);
    }
  }

  lemma AscendingInsert<V>(c: seq<Node<V>>, n: Node<V>)
    requires 1 <= |c| && Ascending(c) && Found(c, n.key) == null
    ensures Ascending(InsertAt(c, LowerIdx(c, n.key), n))
  {
    hide LowerIdx, InsertAt, Found;
    var k := LowerIdx(c, n.key);
    forall p, q | 1 <= p < q <= |c|
      ensures InsertAt(c, k, n)[p].key < InsertAt(c, k, n)[q].key
    {
      AscendingInsertAt(c, n, k, p, q);
    }
  }

  lemma InsertedMembers<V>(c: seq<Node<V>>, k: nat, n: Node<V>)
    requires k <= |c|
    ensures forall m :: m in InsertAt(c, k, n) <==> m == n || m in c
    ensures forall p :: 0 <= p < |c| + 1 && p != k ==> InsertAt(c, k, n)[p] == c[if p < k then p else p - 1]
  {
    var c' := InsertAt(c, k, n);
    forall m | m in c
      ensures m in c'
    {
      var p :| 0 <= p < |c| && c[p] == m;
      InsertedAt(c, k, n, p);
    }
  }

  ghost function Objects<V>(c: seq<Node<V>>): set<object> {
    (set n: Node<V> | n in c) + (set n: Node<V> | n in c :: n.next)
  }

  lemma ValueAt<V>(c: seq<Node<V>>, i: nat)
    requires i + 1 < |c|
    ensures Values(c)[i] == Entry(c[i + 1].key, c[i + 1].value)
  {}

  lemma InRepr<V>(c: seq<Node<V>>)
    ensures forall n :: n in c ==> n in Objects(c) && n.next in Objects(c)
  {}

  lemma ObjectsInsert<V>(c: seq<Node<V>>, k: nat, n: Node<V>)
    requires k <= |c|
    ensures Objects(InsertAt(c, k, n)) == Objects(c) + {n, n.next}
  {
    hide InsertAt;
    InsertedMembers(c, k, n);
    var c' := InsertAt(c, k, n);
    assert n in c';
    assert forall m :: m in c ==> m in c';
  }

  lemma SeparateInsert<V>(c: seq<Node<V>>, k: nat, n: Node<V>)
    requires k <= |c| && Separate(c) && n !in c && forall m :: m in c ==> m.next != n.next
    ensures Separate(InsertAt(c, k, n))
  {
    var c' := InsertAt(c, k, n);
    forall p, q | 0 <= p < q < |c'|
      ensures c'[p] != c'[q] && c'[p].next != c'[q].next
    {
      if p == k {
        assert c'[q] == c[q - 1];
      } else if q == k {
        assert c'[p] == c[p];
      } else {
        var p', q' := if p < k then p else p - 1, if q < k then q else q - 1;
        SeparateAt(c, p', q');
      }
    }
  }

  lemma WfInsert<V>(c: seq<Node<V>>, n: Node<V>)
    requires Wf(c) && Found(c, n.key) == null && 1 <= n.next.Length <= MAX_LEVEL
    requires n !in c && forall m :: m in c ==> m.next != n.next
    ensures var c' := InsertAt(c, LowerIdx(c, n.key), n); Wf(c') && c'[0] == c[0]
  {
    hide LowerIdx, Separate, Ascending, InsertAt;
    InsertedMembers(c, LowerIdx(c, n.key), n);
    SeparateInsert(c, LowerIdx(c, n.key), n);
    AscendingInsert(c, n);
  }

  lemma TowerAt<V>(c: seq<Node<V>>, key: uint64, ps: seq<nat>, i: nat)
    requires 1 <= |c| && Tower(c, key, ps) && i < |ps|
    ensures ps[i] < LowerIdx(c, key) <= |c| && i < c[ps[i]].next.Length
    ensures LowerIdx(c, key) <= NextTall(c, ps[i] + 1, i)
  {
    assert IsPrev(c, key, i, ps[i]);
  }

  /** From which old positions the lower bound is reached at level i. */
  lemma Reaches<V>(c: seq<Node<V>>, key: uint64, ps: seq<nat>, p: nat, i: nat)
    requires 1 <= |c| && Tower(c, key, ps) && i < |ps|
    requires p < LowerIdx(c, key) && i < c[p].next.Length
    ensures LowerIdx(c, key) <= NextTall(c, p + 1, i) <==> p == ps[i]
  {
    hide LowerIdx, NextTall, Tower, IsPrev;
    TowerAt(c, key, ps, i);
    if p < ps[i] {
      NextTallLe(c, p + 1, ps[i], i);
    } else if ps[i] < p {
      NextTallLe(c, ps[i] + 1, p, i);
    }
  }

  /** Links between old nodes behind the new one lead where they led. */
  lemma SlotBehind<V>(c: seq<Node<V>>, k: nat, n: Node<V>, p: nat, i: nat)
    requires k <= p < |c|
    ensures var c' := InsertAt(c, k, n);
      At(c', NextTall(c', p + 2, i)) == At(c, NextTall(c, p + 1, i))
  {
    hide NextTall, InsertAt;
    var q := NextTall(c, p + 1, i);
    NextTallShift(c, k, n, p + 1, i);
    if q < |c| {
      InsertedAt(c, k, n, q);
    }
  }

  /** A link that starts before the new node is cut by it when it led past it on a level it has. */
  lemma SlotBefore<V>(c: seq<Node<V>>, k: nat, n: Node<V>, p: nat, i: nat)
    requires p < k <= |c|
    ensures var c' := InsertAt(c, k, n);
      var q := NextTall(c, p + 1, i);
      At(c', NextTall(c', p + 1, i)) == if q >= k && i < n.next.Length then n else At(c, q)
  {
    hide NextTall, InsertAt;
    var q := NextTall(c, p + 1, i);
    NextTallInsert(c, k, n, p + 1, i);
    if q < |c| {
      InsertedAt(c, k, n, q);
    }
  }

  /** Where an old node must point at level i once n is in the chain. */
  lemma SlotAfterInsert<V>(c: seq<Node<V>>, key: uint64, ps: seq<nat>, n: Node<V>, p: nat, i: nat)
    requires 1 <= |c| && Tower(c, key, ps) && |ps| == n.next.Length
    requires p < |c| && i < c[p].next.Length
    ensures var k := LowerIdx(c, key);
            var c' := InsertAt(c, k, n);
            var p' := if p < k then p else p + 1;
            At(c', NextTall(c', p' + 1, i))
            == if i < |ps| && p == ps[i] then n else At(c, NextTall(c, p + 1, i))
  {
    hide LowerIdx, NextTall, Tower, IsPrev, InsertAt, At;
    var k := LowerIdx(c, key);
    if i < |ps| {
      TowerAt(c, key, ps, i);
    }
    if p < k {
      SlotBefore(c, k, n, p, i);
      if i < |ps| {
        Reaches(c, key, ps, p, i);
      }
    } else {
      SlotBehind(c, k, n, p, i);
    }
  }

  /** Where the new node must point at level i. */
  lemma SlotOfInserted<V>(c: seq<Node<V>>, key: uint64, ps: seq<nat>, n: Node<V>, i: nat)
    requires 1 <= |c| && Tower(c, key, ps) && |ps| == n.next.Length && i < |ps|
    ensures var k := LowerIdx(c, key);
            var c' := InsertAt(c, k, n);
            At(c', NextTall(c', k + 1, i)) == At(c, NextTall(c, ps[i] + 1, i))
  {
    hide LowerIdx, NextTall, Tower, IsPrev, InsertAt;
    var k := LowerIdx(c, key);
    TowerAt(c, key, ps, i);
    NextTallShift(c, k, n, k, i);
    NextTallSkip(c, ps[i] + 1, k, i);
    var q := NextTall(c, k, i);
    if q < |c| {
      InsertedAt(c, k, n, q);
    }
  }

  lemma NextTallSkip<V>(c: seq<Node<V>>, p: nat, k: nat, i: nat)
    requires p <= k <= |c| && k <= NextTall(c, p, i)
    ensures NextTall(c, k, i) == NextTall(c, p, i)
    decreases k - p
  {
    if p < k {
      NextTallSkip(c, p + 1, k, i);
    }
  }

  /** The spliced links are the links of the longer chain. */
  lemma SplicedLinks<V>(c: seq<Node<V>>, ts: seq<seq<Node?<V>>>, key: uint64, ps: seq<nat>, n: Node<V>)
    requires 1 <= |c| && Linked(c, ts) && Tower(c, key, ps) && |ps| == n.next.Length
    requires forall p :: 0 <= p < |c| ==> SplicedNode(c, ts, ps, n, |ps|, p)
    requires forall j :: 0 <= j < |ps| ==> ps[j] < |c|
    requires forall j :: 0 <= j < |ps| ==> n.next[j] == At(c, NextTall(c, ps[j] + 1, j))
    ensures Links(InsertAt(c, LowerIdx(c, key), n))
  {
    hide LowerIdx, NextTall, Tower, IsPrev, InsertAt, Linked;
    var k := LowerIdx(c, key);
    var c' := InsertAt(c, k, n);
    forall p', i | 0 <= p' < |c'| && 0 <= i < c'[p'].next.Length
      ensures c'[p'].next[i] == At(c', NextTall(c', p' + 1, i))
    {
      if p' == k {
        SlotOfInserted(c, key, ps, n, i);
      } else {
        var p := if p' < k then p' else p' - 1;
        InsertedAt(c, k, n, p);
        SlotAfterInsert(c, key, ps, n, p, i);
        LinkedAt(c, ts, p, i);
        assert SplicedNode(c, ts, ps, n, |ps|, p);
      }
    }
  }

  // ---------- unsplicing ----------

  lemma RemovedAt<V>(c: seq<Node<V>>, k: nat, p: nat)
    requires k < |c| && p < |c| - 1
    ensures RemoveAt(c, k)[p] == c[if p < k then p else p + 1]
  {}

  /** What followed a removed node takes its place. */
  lemma AtRemoved<V>(c: seq<Node<V>>, k: nat)
    requires k < |c|
    ensures At(RemoveAt(c, k), k) == At(c, k + 1)
  {}

  lemma RemovedMembers<V>(c: seq<Node<V>>, k: nat)
    requires k < |c|
    ensures forall m :: m in RemoveAt(c, k) ==> m in c
    ensures forall p :: 0 <= p < |c| - 1 ==> RemoveAt(c, k)[p] == c[if p < k then p else p + 1]
    ensures Objects(RemoveAt(c, k)) <= Objects(c)
  {}

  lemma WfRemove<V>(c: seq<Node<V>>, k: nat)
    requires Wf(c) && 1 <= k < |c|
    ensures Wf(RemoveAt(c, k)) && RemoveAt(c, k)[0] == c[0]
  {
    var c' := RemoveAt(c, k);
    forall p, q | 0 <= p < q < |c'|
      ensures c'[p] != c'[q] && c'[p].next != c'[q].next
      ensures 1 <= p ==> c'[p].key < c'[q].key
    {
      RemovedAt(c, k, p);
      RemovedAt(c, k, q);
    }
  }

  /** The node at p after the links to position k are bypassed on its first m levels. */
  ghost predicate BypassedNode<V>(c: seq<Node<V>>, ts: seq<seq<Node?<V>>>, ps: seq<nat>, k: nat, m: nat, p: nat)
    requires p < |c| == |ts| && k < |c| && m <= |ps| && m <= |ts[k]|
    reads c[p].next
  {
    && |ts[p]| == c[p].next.Length
    && forall j :: 0 <= j < |ts[p]| ==> c[p].next[j] == if j < m && p == ps[j] then ts[k][j] else ts[p][j]
  }

  /** Where a remaining node must point at level i once position k is gone. */
  lemma SlotAfterRemove<V>(c: seq<Node<V>>, key: uint64, ps: seq<nat>, p: nat, i: nat)
    requires 1 <= |c| && Tower(c, key, ps)
    requires var k := LowerIdx(c, key); k < |c| && c[k].next.Length <= |ps|
    requires p < |c| - 1 && i < RemoveAt(c, LowerIdx(c, key))[p].next.Length
    ensures var k := LowerIdx(c, key);
            var c' := RemoveAt(c, k);
            var p' := if p < k then p else p + 1;
            At(c', NextTall(c', p + 1, i))
            == At(c, if i < c[k].next.Length && p' == ps[i] then NextTall(c, k + 1, i) else NextTall(c, p' + 1, i))
  {
    hide LowerIdx, NextTall, Tower, IsPrev, InsertAt, RemoveAt, At;
    var k := LowerIdx(c, key);
    RemovedAt(c, k, p);
    PutBack(c, k);
    SlotWithout(c, RemoveAt(c, k), key, ps, p, i);
  }

  lemma SlotWithout<V>(c: seq<Node<V>>, c': seq<Node<V>>, key: uint64, ps: seq<nat>, p: nat, i: nat)
    requires 1 <= |c| && Tower(c, key, ps) && p < |c'| == |c| - 1
    requires var k := LowerIdx(c, key); k < |c| && c[k].next.Length <= |ps| && InsertAt(c', k, c[k]) == c
    requires i < c[if p < LowerIdx(c, key) then p else p + 1].next.Length
    ensures var k := LowerIdx(c, key);
            var p' := if p < k then p else p + 1;
            At(c', NextTall(c', p + 1, i))
            == At(c, if i < c[k].next.Length && p' == ps[i] then NextTall(c, k + 1, i) else NextTall(c, p' + 1, i))
  {
    hide LowerIdx, NextTall, Tower, IsPrev, InsertAt, At;
    var k := LowerIdx(c, key);
    if p < k {
      if i < c[k].next.Length {
        Reaches(c, key, ps, p, i);
      }
      SlotBeforeRemoved(c, c', k, p, i);
    } else {
      SlotBehind(c', k, c[k], p, i);
      if i < c[k].next.Length {
        TowerAt(c, key, ps, i);
      }
    }
  }

  /** Read backwards: a link over a node taller than its level gets that node's own link. */
  lemma SlotBeforeRemoved<V>(c: seq<Node<V>>, c': seq<Node<V>>, k: nat, p: nat, i: nat)
    requires p < k < |c| == |c'| + 1 && InsertAt(c', k, c[k]) == c
    ensures At(c', NextTall(c', p + 1, i))
         == At(c, if i < c[k].next.Length && k <= NextTall(c, p + 1, i) then NextTall(c, k + 1, i)
                  else NextTall(c, p + 1, i))
  {
    hide NextTall, InsertAt;
    var n := c[k];
    var q := NextTall(c', p + 1, i);
    NextTallInsert(c', k, n, p + 1, i);
    if q < |c'| {
      InsertedAt(c', k, n, q);
    }
    if k <= q {
      NextTallSkip(c', p + 1, k, i);
      NextTallShift(c', k, n, k, i);
    }
  }

  /** The bypassing links are the links of the shorter chain. */
  lemma BypassedLinks<V>(c: seq<Node<V>>, ts: seq<seq<Node?<V>>>, key: uint64, ps: seq<nat>)
    requires 1 <= |c| && Linked(c, ts) && Tower(c, key, ps)
    requires var k := LowerIdx(c, key); k < |c| && c[k].next.Length <= |ps| && c[k].next.Length == |ts[k]|
    requires forall p :: 0 <= p < |c| && p != LowerIdx(c, key) ==>
               BypassedNode(c, ts, ps, LowerIdx(c, key), c[LowerIdx(c, key)].next.Length, p)
    ensures Links(RemoveAt(c, LowerIdx(c, key)))
  {
    hide LowerIdx, NextTall, Tower, IsPrev, InsertAt, Linked, RemoveAt;
    var k := LowerIdx(c, key);
    var c' := RemoveAt(c, k);
    forall p', i | 0 <= p' < |c'| && 0 <= i < c'[p'].next.Length
      ensures c'[p'].next[i] == At(c', NextTall(c', p' + 1, i))
    {
      var p := if p' < k then p' else p' + 1;
      RemovedAt(c, k, p');
      SlotAfterRemove(c, key, ps, p', i);
      LinkedAt(c, ts, p, i);
      if i < c[k].next.Length {
        LinkedAt(c, ts, k, i);
      }
      assert BypassedNode(c, ts, ps, k, c[k].next.Length, p);
    }
  }

  // ---------- abstract values ----------

  lemma RankOfValues<V>(c: seq<Node<V>>, key: uint64)
    requires 1 <= |c|
    ensures Rank(Values(c), key) + 1 == LowerIdx(c, key)
    ensures HasKey(Values(c), key) <==> Found(c, key) != null
  {
    hide Rank, LowerIdx;
    var r, l := Rank(Values(c), key), LowerIdx(c, key);
    SnapshotOf(c);
    if r + 1 < l {
      LowerIdxAbove(c, key, 1, r + 1);
    }
  }

  lemma ValuesInsertAt<V>(c: seq<Node<V>>, k: nat, n: Node<V>)
    requires 1 <= k <= |c|
    ensures Values(InsertAt(c, k, n)) == Values(c)[..k - 1] + [Entry(n.key, n.value)] + Values(c)[k - 1..]
  {}

  lemma ValuesRemoveAt<V>(c: seq<Node<V>>, k: nat)
    requires 1 <= k < |c|
    ensures Values(RemoveAt(c, k)) == Values(c)[..k - 1] + Values(c)[k..]
  {}

  lemma ValuesInsert<V>(c: seq<Node<V>>, n: Node<V>)
    requires 1 <= |c| && Found(c, n.key) == null
    ensures Values(InsertAt(c, LowerIdx(c, n.key), n)) == Put(Values(c), n.key, n.value)
  {
    hide LowerIdx, Rank, Values, InsertAt, HasKey, Found;
    RankOfValues(c, n.key);
    ValuesInsertAt(c, LowerIdx(c, n.key), n);
  }

  lemma ValuesRemove<V>(c: seq<Node<V>>, key: uint64)
    requires 1 <= |c|
    ensures Found(c, key) == null ==> Values(c) == Drop(Values(c), key)
    ensures Found(c, key) != null ==>
      1 <= LowerIdx(c, key) < |c| && Values(RemoveAt(c, LowerIdx(c, key))) == Drop(Values(c), key)
  {
    hide LowerIdx, Rank, Values, RemoveAt, HasKey;
    RankOfValues(c, key);
    if Found(c, key) != null {
      ValuesRemoveAt(c, LowerIdx(c, key));
    }
  }

  lemma SnapshotOf<V>(c: seq<Node<V>>)
    requires 1 <= |c|
    ensures |Values(c)| == |c| - 1
    ensures forall p :: 1 <= p < |c| ==> Values(c)[p - 1] == Entry(c[p].key, c[p].value)
  {}

  /** Overwriting the value of one node. */
  lemma ValuesAssign<V>(c: seq<Node<V>>, was: seq<Entry<V>>, k: nat)
    requires 1 <= k < |c| == |was| + 1
    requires forall p :: 1 <= p < |c| ==> c[p].key == was[p - 1].key
    requires forall p :: 1 <= p < |c| && p != k ==> c[p].value == was[p - 1].value
    ensures Values(c) == was[..k - 1] + [Entry(c[k].key, c[k].value)] + was[k..]
  {}

  lemma FoundIsNode<V>(c: seq<Node<V>>, key: uint64)
    requires 1 <= |c| && Found(c, key) != null
    ensures 1 <= LowerIdx(c, key) < |c|
    ensures Found(c, key) == c[LowerIdx(c, key)] && Found(c, key).key == key && Found(c, key) in c
  {}

  lemma WfAscends<V>(c: seq<Node<V>>)
    requires Wf(c)
    ensures Ascending(c)
  {}

  lemma ValuesSorted<V>(c: seq<Node<V>>)
    requires Wf(c)
    ensures Sorted(Values(c))
  {
    SnapshotOf(c);
  }

  // ---------- walking a level ----------

  /** The nodes met from n by following links of level i. */
  ghost function Walk<V>(c: seq<Node<V>>, n: Node?<V>, i: nat, fuel: nat): seq<Node<V>>
    reads set m | m in c :: m.next
  {
    if fuel == 0 || n == null || n !in c || n.next.Length <= i then []
    else [n] + Walk(c, n.next[i], i, fuel - 1)
  }

  /** The nodes at or after position p taller than level i, in chain order. */
  ghost function Taller<V>(c: seq<Node<V>>, p: nat, i: nat): seq<Node<V>>
    requires p <= |c|
    decreases |c| - p
  {
    if p == |c| then [] else (if i < c[p].next.Length then [c[p]] else []) + Taller(c, p + 1, i)
  }

  lemma {:induction false} TallerFrom<V>(c: seq<Node<V>>, p: nat, i: nat)
    requires p <= |c|
    ensures Taller(c, p, i) == Taller(c, NextTall(c, p, i), i)
    decreases |c| - p
  {
    if p < |c| && c[p].next.Length <= i {
      TallerFrom(c, p + 1, i);
    }
  }

  lemma TallerStep<V>(c: seq<Node<V>>, q: nat, i: nat)
    requires q < |c| ==> i < c[q].next.Length
    requires q <= |c|
    ensures Taller(c, q, i) == if q < |c| then [c[q]] + Taller(c, q + 1, i) else []
  {}

  /** Following level i visits exactly the nodes taller than i, in key order. */
  lemma {:induction false} WalkVisitsTaller<V>(c: seq<Node<V>>, p: nat, i: nat)
    requires Links(c) && p <= |c|
    ensures Walk(c, At(c, NextTall(c, p, i)), i, |c| - p) == Taller(c, p, i)
    decreases |c| - p
  {
    hide Links, NextTall, Walk, Taller;
    var q := NextTall(c, p, i);
    TallerFrom(c, p, i);
    TallerStep(c, q, i);
    if q < |c| {
      Follow(c, q, i);
      WalkVisitsTaller(c, q + 1, i);
      WalkFuel(c, q + 1, i, |c| - p - 1);
      WalkStep(c, q, i, |c| - p);
    } else {
      WalkNowhere(c, i, |c| - p);
    }
  }

  /** Fuel beyond the length of the chain changes nothing. */
  lemma {:induction false} WalkFuel<V>(c: seq<Node<V>>, p: nat, i: nat, fuel: nat)
    requires Links(c) && p <= |c| && |c| - p <= fuel
    ensures Walk(c, At(c, NextTall(c, p, i)), i, fuel) == Walk(c, At(c, NextTall(c, p, i)), i, |c| - p)
    decreases |c| - p
  {
    hide Links, NextTall, Walk;
    var q := NextTall(c, p, i);
    if q < |c| {
      Follow(c, q, i);
      WalkFuel(c, q + 1, i, fuel - 1);
      WalkFuel(c, q + 1, i, |c| - p - 1);
      WalkStep(c, q, i, fuel);
      WalkStep(c, q, i, |c| - p);
    } else {
      WalkNowhere(c, i, fuel);
      WalkNowhere(c, i, |c| - p);
    }
  }

  lemma WalkStep<V>(c: seq<Node<V>>, q: nat, i: nat, fuel: nat)
    requires q < |c| && i < c[q].next.Length && fuel > 0
    ensures Walk(c, c[q], i, fuel) == [c[q]] + Walk(c, c[q].next[i], i, fuel - 1)
  {}

  lemma WalkNowhere<V>(c: seq<Node<V>>, i: nat, fuel: nat)
    ensures Walk(c, null, i, fuel) == []
  {}

  lemma {:induction false} TallerMembers<V>(c: seq<Node<V>>, p: nat, i: nat)
    requires p <= |c|
    ensures forall n :: n in Taller(c, p, i) <==> n in c[p..] && i < n.next.Length
    decreases |c| - p
  {
    if p < |c| {
      TallerMembers(c, p + 1, i);
      assert c[p..] == [c[p]] + c[p + 1..];
    }
  }

  ghost predicate AscendingFrom<V>(ns: seq<Node<V>>, low: int) {
    ns == [] || (low < ns[0].key && AscendingFrom(ns[1..], ns[0].key))
  }

  lemma {:induction false} TallerAscends<V>(c: seq<Node<V>>, p: nat, i: nat, low: int)
    requires Ascending(c) && 1 <= p <= |c|
    requires p < |c| ==> low < c[p].key
    ensures AscendingFrom(Taller(c, p, i), low)
    decreases |c| - p
  {
    if p < |c| {
      TallerNext(c, p, i);
      if i < c[p].next.Length {
        TallerAscends(c, p + 1, i, c[p].key);
      } else {
        TallerAscends(c, p + 1, i, low);
      }
    }
  }

  lemma TallerNext<V>(c: seq<Node<V>>, p: nat, i: nat)
    requires Ascending(c) && 1 <= p < |c|
    ensures p + 1 < |c| ==> c[p].key < c[p + 1].key
    ensures Taller(c, p, i) == if i < c[p].next.Length then [c[p]] + Taller(c, p + 1, i) else Taller(c, p + 1, i)
  {}
}
