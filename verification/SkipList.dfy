/**
 * The anytls skip list: a sorted map from uint64 keys kept as a linked list
 * whose nodes carry a tower of forward links.
 */
module SkipLists {
  import opened Ints
  import opened Options
  import opened Powers
  import opened Seqs
  import opened SortedEntries
  import opened SkipListChains

  const TOTAL: nat := 0x100_0000_0000 - 1   // 2^40 - 1
  const CLAMP_LEN: nat := 0x40_0000_0000    // 2^38

  /**
   * The level a draw gives on a list of n entries: one more for each leading
   * zero of the number drawn, but above 3 no more than fits the length.
   */
  ghost predicate LevelIs(l: nat, draw: uint64, n: nat) {
    var drawn := MAX_LEVEL + 1 - BitLen(draw % TOTAL);
    l <= drawn && (l <= 3 || Pow2(l - 3) <= n) && (l == drawn || (3 <= l && n < Pow2(l - 2)))
  }

  /** The towers of all entries, in list order. */
  ghost function Heights<V>(c: seq<Node<V>>): (hs: seq<int>)
    requires 1 <= |c|
    ensures |hs| == |c| - 1
  {
    seq(|c| - 1, i requires 0 <= i < |c| - 1 => c[i + 1].next.Length)
  }

  /** One more tower, of the level that this draw gives on a list of n entries. */
  ghost predicate TowerAdded(hs: seq<int>, before: seq<int>, at: nat, draw: uint64, n: nat) {
    at <= |before| && exists l: nat :: LevelIs(l, draw, n) && hs == InsertAt(before, at, l)
  }

  lemma HeightsInsert<V>(c: seq<Node<V>>, k: nat, node: Node<V>)
    requires 1 <= k <= |c|
    ensures Heights(InsertAt(c, k, node)) == InsertAt(Heights(c), k - 1, node.next.Length)
  {}

  class SkipList<V> {
    var level: nat
    var len: nat
    const head: Node<V>
    const prevsCache: array<Node?<V>>
    ghost var chain: seq<Node<V>>

    ghost function Repr(): set<object>
      reads this
    {
      {this, prevsCache} + Objects(chain)
    }

    ghost predicate Shape()
      reads this
    {
      && Wf(chain) && chain[0] == head
      && prevsCache.Length == MAX_LEVEL
      && (forall n :: n in chain ==> n.next != prevsCache)
      && 1 <= level <= MAX_LEVEL
      && len == |chain| - 1
      && (forall p :: 1 <= p < |chain| ==> chain[p].next.Length <= level)
    }

    ghost predicate Valid()
      reads this, set n | n in chain :: n.next
    {
      && Shape()
      && Links(chain)
      && (level > 1 ==> head.next[level - 1] != null)
    }

    /** The abstract state: keys and values in list order. */
    ghost function Entries(): (es: seq<Entry<V>>)
      reads this, set n | n in chain
      requires 1 <= |chain|
      ensures |es| == |chain| - 1
    {
      Values(chain)
    }

    constructor ()
      ensures Valid() && fresh(Repr()) && Entries() == [] && level == 1
    {
      level := 1;
      len := 0;
      head := new Node<V>(MAX_LEVEL, 0, None);
      prevsCache := new Node?<V>[MAX_LEVEL](_ => null);
      new;
      chain := [head];
    }

    // ---------- searches ----------

    /** The fields a search relies on. */
    lemma Basics()
      requires Valid()
      ensures 1 <= level <= MAX_LEVEL == prevsCache.Length == head.next.Length
      ensures 1 <= |chain| && chain[0] == head
      ensures forall n :: n in chain ==> n.next != prevsCache
    {}

    /** One link followed from position p along level i while looking for `key`. */
    lemma Step(key: uint64, p: nat, i: nat) returns (t: nat)
      requires Valid() && p < |chain| && i < chain[p].next.Length
      requires p < LowerIdx(chain, key)
      ensures p < t <= |chain| && chain[p].next[i] == At(chain, t)
      ensures t == |chain| ==> chain[p].next[i] == null && Passed(chain, key, p, i) && IsPrev(chain, key, i, p)
      ensures t < |chain| ==>
        && chain[p].next[i] == chain[t] && i < chain[t].next.Length
        && (chain[t].key < key ==> t < LowerIdx(chain, key))
        && (chain[t].key == key ==> Found(chain, key) == At(chain, LowerIdx(chain, key)) == chain[t])
        && (key <= chain[t].key ==> IsPrev(chain, key, i, p))
        && (key < chain[t].key ==> Passed(chain, key, p, i))
    {
      t := NextTall(chain, p + 1, i);
      Follow(chain, p, i);
      if t < |chain| {
        Compare(chain, key, t);
      }
    }

    lemma Bottomed(key: uint64, p: nat)
      requires Valid() && p < LowerIdx(chain, key) && Passed(chain, key, p, 0)
      ensures Found(chain, key) == null
      ensures 0 < chain[p].next.Length && chain[p].next[0] == At(chain, LowerIdx(chain, key))
    {
      PassedBottom(chain, key, p);
      Follow(chain, p, 0);
      Bottom(chain, p);
    }

    method DoFindNode(key: uint64, eq: bool) returns (r: Node?<V>)
      requires Valid()
      ensures r == if eq then Found(chain, key) else At(chain, LowerIdx(chain, key))
    {
      hide *;
      Basics();
      var prev := head;
      ghost var p := 0;
      var i := level;
      while i > 0
        invariant 0 <= i <= level
        invariant 0 <= p < LowerIdx(chain, key) && chain[p] == prev && i <= prev.next.Length
        invariant i < level ==> Passed(chain, key, p, i)
      {
        i := i - 1;
        var cur := prev.next[i];
        ghost var t := Step(key, p, i);
        while cur != null
          invariant 0 <= p < LowerIdx(chain, key) && chain[p] == prev && i < prev.next.Length
          invariant cur == prev.next[i]
          invariant cur == null ==> Passed(chain, key, p, i)
          decreases |chain| - p
        {
          t := Step(key, p, i);
          if cur.key == key {
            return cur;
          }
          if cur.key > key {
            break;
          }
          prev := cur;
          p := t;
          cur := cur.next[i];
          t := Step(key, p, i);
        }
      }
      Bottomed(key, p);
      if eq {
        return null;
      }
      return prev.next[0];
    }

    method FindNode(key: uint64) returns (r: Node?<V>)
      requires Valid()
      ensures r == Found(chain, key)
    {
      r := DoFindNode(key, true);
    }

    method LowerBoundNode(key: uint64) returns (r: Node?<V>)
      requires Valid()
      ensures r == At(chain, LowerIdx(chain, key))
    {
      r := DoFindNode(key, false);
    }

    method UpperBoundNode(key: uint64) returns (r: Node?<V>)
      requires Valid()
      ensures r == At(chain, UpperIdx(chain, key))
    {
      hide Separate, Ascending, Links;
      r := LowerBoundNode(key);
      if r != null && r.key == key {
        ghost var q := LowerIdx(chain, key);
        Bottom(chain, q);
        Follow(chain, q, 0);
        r := r.next[0];
      }
    }

    /** prevsCache[j] is the last node of level j whose key is below `key`. */
    ghost predicate Prevs(key: uint64, ps: seq<nat>)
      reads this, prevsCache
      requires 1 <= |chain| && level <= prevsCache.Length
    {
      && |ps| == level
      && forall j :: 0 <= j < level ==> IsPrev(chain, key, j, ps[j]) && prevsCache[j] == chain[ps[j]]
    }

    lemma PrevsIntro(key: uint64, ps: seq<nat>)
      requires 1 <= |chain| && |ps| == level <= prevsCache.Length
      requires forall j :: 0 <= j < level ==> IsPrev(chain, key, j, ps[j]) && prevsCache[j] == chain[ps[j]]
      ensures Prevs(key, ps)
    {}

    method FindPrevNodes(key: uint64) returns (ghost ps: seq<nat>)
      requires Valid()
      modifies prevsCache
      ensures Valid() && Prevs(key, ps)
    {
      hide *;
      Basics();
      var prev := head;
      ghost var p := 0;
      ps := seq(level, _ => 0);
      var i := level;
      while i > 0
        invariant Valid()
        invariant 0 <= i <= level <= prevsCache.Length && |ps| == level
        invariant 0 <= p < LowerIdx(chain, key) && chain[p] == prev && i <= prev.next.Length
        invariant forall j :: i <= j < level ==> ps[j] < |chain|
        invariant forall j :: i <= j < level ==> IsPrev(chain, key, j, ps[j])
        invariant forall j :: i <= j < level ==> prevsCache[j] == chain[ps[j]]
      {
        i := i - 1;
        var next := prev.next[i];
        ghost var t := Step(key, p, i);
        while next != null
          invariant 0 <= p < LowerIdx(chain, key) && chain[p] == prev && i < prev.next.Length
          invariant next == prev.next[i]
          invariant next == null ==> IsPrev(chain, key, i, p)
          modifies {}
          decreases |chain| - p
        {
          t := Step(key, p, i);
          if next.key >= key {
            break;
          }
          prev := next;
          p := t;
          next := next.next[i];
          t := Step(key, p, i);
        }
        prevsCache[i] := prev;
        ps := ps[i := p];
      }
      PrevsIntro(key, ps);
    }

    /** The existing node, or null with prevsCache filled in. */
    method FindInsertPoint(key: uint64) returns (r: Node?<V>, ghost ps: seq<nat>)
      requires Valid()
      modifies prevsCache
      ensures Valid() && r == Found(chain, key)
      ensures r == null ==> Prevs(key, ps)
    {
      hide *;
      Basics();
      var prev := head;
      ghost var p := 0;
      ps := seq(level, _ => 0);
      var i := level;
      while i > 0
        invariant Valid()
        invariant 0 <= i <= level <= prevsCache.Length && |ps| == level
        invariant 0 <= p < LowerIdx(chain, key) && chain[p] == prev && i <= prev.next.Length
        invariant i < level ==> Passed(chain, key, p, i)
        invariant forall j :: i <= j < level ==> ps[j] < |chain|
        invariant forall j :: i <= j < level ==> IsPrev(chain, key, j, ps[j])
        invariant forall j :: i <= j < level ==> prevsCache[j] == chain[ps[j]]
      {
        i := i - 1;
        var next := prev.next[i];
        ghost var t := Step(key, p, i);
        while next != null
          invariant 0 <= p < LowerIdx(chain, key) && chain[p] == prev && i < prev.next.Length
          invariant next == prev.next[i]
          invariant next == null ==> Passed(chain, key, p, i) && IsPrev(chain, key, i, p)
          modifies {}
          decreases |chain| - p
        {
          t := Step(key, p, i);
          if next.key == key {
            return next, [];
          }
          if next.key > key {
            break;
          }
          prev := next;
          p := t;
          next := next.next[i];
          t := Step(key, p, i);
        }
        prevsCache[i] := prev;
        ps := ps[i := p];
      }
      PrevsIntro(key, ps);
      Bottomed(key, p);
      return null, ps;
    }

    /** The node with this key, or null, with prevsCache filled in. */
    method FindRemovePoint(key: uint64) returns (r: Node?<V>, ghost ps: seq<nat>)
      requires Valid()
      modifies prevsCache
      ensures Valid() && r == Found(chain, key)
      ensures Prevs(key, ps)
    {
      hide Separate, Ascending, Links;
      ps := FindPrevNodes(key);
      Bottom(chain, ps[0]);
      Follow(chain, ps[0], 0);
      r := prevsCache[0].next[0];
      if r == null || r.key != key {
        r := null;
      }
    }

    // ---------- level choice ----------

    /** A level in 1..40, except that a zero draw on a huge list gives 41. */
    method RandomLevel(draw: uint64) returns (l: nat)
      ensures 1 <= l <= MAX_LEVEL + 1 && LevelIs(l, draw, len)
      ensures l > MAX_LEVEL <==> draw % TOTAL == 0 && len >= CLAMP_LEN
    {
      hide Pow2, BitLen;
      Pow2Values();
      var k := draw % TOTAL;
      BitLenBound(k, MAX_LEVEL);
      BitLenZero(k);
      l := MAX_LEVEL + 1 - BitLen(k);
      while l > 3 && Pow2(l - 3) > len
        invariant 1 <= l <= MAX_LEVEL + 1 - BitLen(k)
        invariant l == MAX_LEVEL + 1 - BitLen(k) || (3 <= l && len < Pow2(l - 2))
      {
        l := l - 1;
      }
      if 3 <= l <= MAX_LEVEL {
        Pow2Monotone(l - 2, 38);
      }
    }

    // ---------- updates ----------

    /** Links the new node into the m lowest levels, behind the cached predecessors. */
    method Splice(node: Node<V>, m: nat, ghost ts: seq<seq<Node?<V>>>, ghost qs: seq<nat>)
      requires |ts| == |chain| && Linked(chain, ts) && m <= |qs| == node.next.Length && m <= prevsCache.Length
      requires Separate(chain) && node.next != prevsCache
      requires forall n :: n in chain ==> n.next != prevsCache && n.next != node.next
      requires forall j :: 0 <= j < m ==>
                 qs[j] < |chain| && prevsCache[j] == chain[qs[j]] && j < chain[qs[j]].next.Length
      requires forall p :: 0 <= p < |chain| ==> SplicedNode(chain, ts, qs, node, 0, p)
      requires forall j :: 0 <= j < |qs| ==> node.next[j] == null
      modifies node.next, set n | n in chain :: n.next
      ensures forall p :: 0 <= p < |chain| ==> SplicedNode(chain, ts, qs, node, m, p)
      ensures forall j :: 0 <= j < m ==> node.next[j] == At(chain, NextTall(chain, qs[j] + 1, j))
      ensures forall j :: m <= j < |qs| ==> node.next[j] == null
    {
      hide Separate, Linked, NextTall;
      var i := 0;
      while i < m
        invariant 0 <= i <= m
        invariant forall p :: 0 <= p < |chain| ==> SplicedNode(chain, ts, qs, node, i, p)
        invariant forall j :: 0 <= j < i ==> node.next[j] == At(chain, NextTall(chain, qs[j] + 1, j))
        invariant forall j :: i <= j < |qs| ==> node.next[j] == null
      {
        ghost var q, i' := qs[i], i + 1;
        var prev := prevsCache[i];
        assert SplicedNode(chain, ts, qs, node, i, q);
        LinkedAt(chain, ts, q, i);
        node.next[i] := prev.next[i];
        label L:
        prev.next[i] := node;
        forall p | 0 <= p < |chain|
          ensures SplicedNode(chain, ts, qs, node, i', p)
        {
          assert old@L(SplicedNode(chain, ts, qs, node, i, p));
          if p != q {
            SeparateAt(chain, p, q);
          }
        }
        i := i + 1;
      }
    }

    /** Points the sentinel at a node taller than every other one. */
    method RaiseHead(node: Node<V>, l: nat, ghost ts: seq<seq<Node?<V>>>, ghost qs: seq<nat>)
      requires |ts| == |chain| >= 1 && chain[0] == head && level <= l == |qs| <= head.next.Length
      requires Separate(chain)
      requires forall j :: level <= j < l ==> qs[j] == 0
      requires forall p :: 0 <= p < |chain| ==> SplicedNode(chain, ts, qs, node, level, p)
      modifies head.next
      ensures forall p :: 0 <= p < |chain| ==> SplicedNode(chain, ts, qs, node, l, p)
      ensures level < l ==> head.next[l - 1] == node
    {
      hide Separate;
      var i := level;
      while i < l
        invariant level <= i <= l
        invariant forall p :: 0 <= p < |chain| ==> SplicedNode(chain, ts, qs, node, i, p)
        invariant level < i ==> head.next[i - 1] == node
      {
        ghost var i' := i + 1;
        label L:
        head.next[i] := node;
        forall p | 0 <= p < |chain|
          ensures SplicedNode(chain, ts, qs, node, i', p)
        {
          assert old@L(SplicedNode(chain, ts, qs, node, i, p));
          if p != 0 {
            SeparateAt(chain, p, 0);
          }
        }
        i := i + 1;
      }
    }

    /** Above the current level the sentinel is the predecessor. */
    lemma ExtendTower(key: uint64, ps: seq<nat>, l: nat) returns (qs: seq<nat>)
      requires Valid() && Prevs(key, ps) && l <= MAX_LEVEL
      ensures |qs| == l && Tower(chain, key, qs)
      ensures forall j :: 0 <= j < l ==> qs[j] == if j < level then ps[j] else 0
      ensures forall j :: level <= j < l ==> NextTall(chain, 1, j) == |chain|
      ensures forall j :: 0 <= j < l ==> qs[j] < |chain| && j < chain[qs[j]].next.Length
      ensures forall j :: 0 <= j < l && j < level ==> prevsCache[j] == chain[qs[j]]
    {
      var lv := level;
      qs := seq(l, j requires 0 <= j < l => if j < lv && j < |ps| then ps[j] else 0);
      forall j | level <= j < l
        ensures NextTall(chain, 1, j) == |chain|
      {}
      forall j | 0 <= j < l
        ensures IsPrev(chain, key, j, qs[j])
      {}
    }

    lemma ValidIntro()
      requires Wf(chain) && chain[0] == head && prevsCache.Length == MAX_LEVEL
      requires forall n :: n in chain ==> n.next != prevsCache
      requires 1 <= level <= MAX_LEVEL && len == |chain| - 1
      requires forall p :: 1 <= p < |chain| ==> chain[p].next.Length <= level
      requires Links(chain) && (level > 1 ==> head.next[level - 1] != null)
      ensures Valid()
    {}

    lemma ValidFacts()
      requires Valid()
      ensures Wf(chain) && Separate(chain) && chain[0] == head && prevsCache.Length == MAX_LEVEL == head.next.Length
      ensures forall n :: n in chain ==> n.next != prevsCache
      ensures 1 <= level <= MAX_LEVEL && len == |chain| - 1
      ensures forall p :: 1 <= p < |chain| ==> chain[p].next.Length <= level
      ensures Links(chain) && (level > 1 ==> head.next[level - 1] != null)
    {}

    /** The towers before an update, with the sentinel's top link. */
    lemma OldTowers(node: Node<V>, qs: seq<nat>) returns (ts: seq<seq<Node?<V>>>)
      requires Valid()
      ensures |ts| == |chain| && Linked(chain, ts)
      ensures forall p :: 0 <= p < |chain| ==> SplicedNode(chain, ts, qs, node, 0, p)
      ensures |ts[0]| == MAX_LEVEL && (level > 1 ==> ts[0][level - 1] != null)
    {
      ts := Towers(chain);
      TowersLinked(chain);
      UnSpliced(chain, ts, qs, node);
    }

    lemma TopLink(node: Node<V>, ts: seq<seq<Node?<V>>>, qs: seq<nat>, m: nat)
      requires 0 < |chain| == |ts| && m <= |qs| && SplicedNode(chain, ts, qs, node, m, 0)
      requires |ts[0]| == MAX_LEVEL && 1 <= level <= MAX_LEVEL && (level > 1 ==> ts[0][level - 1] != null)
      ensures level > 1 ==> chain[0].next[level - 1] != null
    {}

    /** Splices the new node into every level of its tower. */
    method LinkNode(node: Node<V>, ghost ps: seq<nat>)
      requires Valid() && Found(chain, node.key) == null && Prevs(node.key, ps)
      requires 1 <= node.next.Length <= MAX_LEVEL && Apart(node)
      requires forall j :: 0 <= j < node.next.Length ==> node.next[j] == null
      modifies this`level, node.next, set n | n in chain :: n.next
      ensures 1 <= LowerIdx(chain, node.key) <= |chain|
      ensures Links(InsertAt(chain, LowerIdx(chain, node.key), node))
      ensures level == if old(level) < node.next.Length then node.next.Length else old(level)
      ensures level > 1 ==> head.next[level - 1] != null
    {
      hide Wf, Shape, Valid, Links, Linked, LowerIdx, NextTall, Tower, Found, Prevs, Separate, InsertAt,
        SplicedNode, Ascending, IsPrev;
      ValidFacts();
      var l := node.next.Length;
      var minLevel := if level < l then level else l;
      ghost var qs := ExtendTower(node.key, ps, l);
      ghost var ts := OldTowers(node, qs);
      Splice(node, minLevel, ts, qs);
      TopLink(node, ts, qs, minLevel);
      if l > level {
        RaiseHead(node, l, ts, qs);
        level := l;
      }
      SplicedLinks(chain, ts, node.key, qs, node);
    }

    /** Puts a fresh node into the list. */
    method AttachNode(node: Node<V>, ghost ps: seq<nat>)
      requires Valid() && Found(chain, node.key) == null && Prevs(node.key, ps)
      requires 1 <= node.next.Length <= MAX_LEVEL && Apart(node)
      requires forall j :: 0 <= j < node.next.Length ==> node.next[j] == null
      modifies this, node.next, set n | n in chain :: n.next
      ensures Valid() && Objects(chain) == old(Objects(chain)) + {node, node.next}
      ensures 1 <= LowerIdx(old(chain), node.key) <= |old(chain)|
      ensures chain == InsertAt(old(chain), LowerIdx(old(chain), node.key), node)
    {
      hide Wf, Shape, Valid, Links, LowerIdx, Found, Prevs, InsertAt, Separate, Objects, Ascending;
      ValidFacts();
      LinkNode(node, ps);
      ghost var k := LowerIdx(chain, node.key);
      WfInsert(chain, node);
      InsertedMembers(chain, k, node);
      ObjectsInsert(chain, k, node);
      chain := InsertAt(chain, k, node);
      len := len + 1;
      ValidIntro();
    }

    /** The part of Insert that makes a node of the chosen level. */
    method AddNode(key: uint64, value: Option<V>, l: nat, ghost ps: seq<nat>)
      requires Valid() && Found(chain, key) == null && Prevs(key, ps) && 1 <= l <= MAX_LEVEL
      modifies Repr()
      ensures Valid() && fresh(Repr() - old(Repr()))
      ensures Entries() == Put(old(Entries()), key, value)
      ensures Heights(chain) == InsertAt(old(Heights(chain)), Rank(old(Entries()), key), l)
    {
      hide Wf, Shape, Valid, Links, LowerIdx, Found, Prevs, InsertAt, Separate, Objects, Values, Put, Ascending, Rank,
        Heights;
      ValidFacts();
      RankOfValues(chain, key);
      InRepr(chain);
      var node := new Node(l, key, value);
      ValuesInsert(chain, node);
      ghost var c := InsertAt(chain, LowerIdx(chain, key), node);
      ghost var es := Values(c);
      SnapshotOf(c);
      HeightsInsert(chain, LowerIdx(chain, key), node);
      AttachNode(node, ps);
      SnapshotOf(c);
      assert Values(c) == es;
    }

    ghost predicate Apart(n: Node<V>)
      reads this
    {
      n !in chain && n.next != prevsCache && forall m :: m in chain ==> m.next != n.next
    }

    /**
     * Inserts or overwrites; false stands for the panic on a level above 40.  A
     * new node gets a tower of the level drawn, and no other tower changes.
     */
    method Insert(key: uint64, value: Option<V>, draw: uint64) returns (ok: bool)
      requires Valid()
      modifies Repr()
      ensures Valid() && fresh(Repr() - old(Repr()))
      ensures ok <==> HasKey(old(Entries()), key) || old(len) < CLAMP_LEN || draw % TOTAL != 0
      ensures Entries() == if ok then Put(old(Entries()), key, value) else old(Entries())
      ensures !ok || HasKey(old(Entries()), key) ==> Heights(chain) == old(Heights(chain))
      ensures ok && !HasKey(old(Entries()), key) ==>
                TowerAdded(Heights(chain), old(Heights(chain)), Rank(old(Entries()), key), draw, old(len))
    {
      hide Wf, Shape, Valid, Links, LowerIdx, Found, Prevs, InsertAt, Separate, Rank, HasKey, Values, Ascending, Put,
        Heights, LevelIs;
      ValidFacts();
      RankOfValues(chain, key);
      var node, ps := FindInsertPoint(key);
      if node != null {
        FoundIsNode(chain, key);
        Overwrite(node, value);
        return true;
      }
      var l := RandomLevel(draw);
      if l > MAX_LEVEL {
        return false;
      }
      AddNode(key, value, l, ps);
      return true;
    }

    method Overwrite(node: Node<V>, value: Option<V>)
      requires Valid() && node == Found(chain, node.key)
      modifies node`value
      ensures Valid()
      ensures Entries() == Put(old(Entries()), node.key, value)
    {
      hide Wf, Valid, Links, LowerIdx, Rank, HasKey, Values, Separate;
      ValidFacts();
      ghost var k, es := LowerIdx(chain, node.key), Values(chain);
      RankOfValues(chain, node.key);
      SnapshotOf(chain);
      node.value := value;
      forall p | 1 <= p < |chain| && p != k
        ensures chain[p].value == es[p - 1].value
      {
        SeparateAt(chain, p, k);
      }
      ValuesAssign(chain, es, k);
    }

    /** Bypasses the node at position k on each level of its tower. */
    method Bypass(node: Node<V>, ghost k: nat, ghost ts: seq<seq<Node?<V>>>, ghost ps: seq<nat>)
      requires |ts| == |chain| && k < |chain| && chain[k] == node && Separate(chain)
      requires |ts[k]| == node.next.Length <= |ps| <= prevsCache.Length
      requires forall n :: n in chain ==> n.next != prevsCache
      requires forall j :: 0 <= j < |ps| ==> ps[j] < k && prevsCache[j] == chain[ps[j]] && j < chain[ps[j]].next.Length
      requires forall p :: 0 <= p < |chain| ==> BypassedNode(chain, ts, ps, k, 0, p)
      modifies set n | n in chain :: n.next
      ensures forall p :: 0 <= p < |chain| ==> BypassedNode(chain, ts, ps, k, node.next.Length, p)
    {
      hide Separate;
      var i := 0;
      while i < node.next.Length
        invariant 0 <= i <= node.next.Length
        invariant forall p :: 0 <= p < |chain| ==> BypassedNode(chain, ts, ps, k, i, p)
      {
        ghost var q, i' := ps[i], i + 1;
        var prev := prevsCache[i];
        assert BypassedNode(chain, ts, ps, k, i, k);
        label L:
        prev.next[i] := node.next[i];
        forall p | 0 <= p < |chain|
          ensures BypassedNode(chain, ts, ps, k, i', p)
        {
          assert old@L(BypassedNode(chain, ts, ps, k, i, p));
          if p != q {
            SeparateAt(chain, p, q);
          }
        }
        i := i + 1;
      }
    }

    lemma BypassPoint(key: uint64, ps: seq<nat>) returns (k: nat, ts: seq<seq<Node?<V>>>)
      requires Valid() && Prevs(key, ps) && Found(chain, key) != null
      ensures k == LowerIdx(chain, key) && 1 <= k < |chain| && chain[k] == Found(chain, key)
      ensures |ts| == |chain| && Linked(chain, ts) && Tower(chain, key, ps)
      ensures |ts[k]| == chain[k].next.Length <= level == |ps|
      ensures forall j :: 0 <= j < |ps| ==> ps[j] < k && prevsCache[j] == chain[ps[j]] && j < chain[ps[j]].next.Length
      ensures forall p :: 0 <= p < |chain| ==> BypassedNode(chain, ts, ps, k, 0, p)
    {
      k := LowerIdx(chain, key);
      ts := Towers(chain);
      TowersLinked(chain);
    }

    /** Takes the found node out of every level of its tower. */
    method UnlinkNode(node: Node<V>, ghost ps: seq<nat>)
      requires Valid() && node == Found(chain, node.key) && Prevs(node.key, ps)
      modifies set n | n in chain :: n.next
      ensures 1 <= LowerIdx(chain, node.key) < |chain|
      ensures Links(RemoveAt(chain, LowerIdx(chain, node.key)))
    {
      hide Wf, Shape, Valid, Links, Linked, LowerIdx, NextTall, Tower, Found, Prevs, Separate, RemoveAt,
        BypassedNode, Ascending, IsPrev;
      ValidFacts();
      ghost var k, ts := BypassPoint(node.key, ps);
      Bypass(node, k, ts, ps);
      BypassedLinks(chain, ts, node.key, ps);
    }

    /** Drops the levels that no node reaches any more. */
    method LowerLevel()
      requires Wf(chain) && chain[0] == head && Links(chain) && 1 <= level <= MAX_LEVEL
      requires forall p :: 1 <= p < |chain| ==> chain[p].next.Length <= level
      modifies `level
      ensures 1 <= level <= MAX_LEVEL && (level > 1 ==> head.next[level - 1] != null)
      ensures forall p :: 1 <= p < |chain| ==> chain[p].next.Length <= level
    {
      hide Separate, Ascending, NextTall;
      while level > 1 && head.next[level - 1] == null
        invariant 1 <= level <= MAX_LEVEL
        invariant forall p :: 1 <= p < |chain| ==> chain[p].next.Length <= level
      {
        Follow(chain, 0, level - 1);
        forall p | 1 <= p < |chain|
          ensures chain[p].next.Length <= level - 1
        {
          if level - 1 < chain[p].next.Length {
            NextTallLe(chain, 1, p, level - 1);
          }
        }
        level := level - 1;
      }
    }

    /** The part of Remove that takes the found node out. */
    method DropNode(node: Node<V>, ghost ps: seq<nat>)
      requires Valid() && node == Found(chain, node.key) && Prevs(node.key, ps)
      modifies this, set n | n in chain :: n.next
      ensures Valid() && Objects(chain) <= old(Objects(chain))
      ensures 1 <= LowerIdx(old(chain), node.key) < |old(chain)|
      ensures chain == RemoveAt(old(chain), LowerIdx(old(chain), node.key))
    {
      hide Wf, Shape, Valid, Links, LowerIdx, Found, Prevs, RemoveAt, Separate, Objects, Ascending;
      ValidFacts();
      UnlinkNode(node, ps);
      ghost var k := LowerIdx(chain, node.key);
      WfRemove(chain, k);
      RemovedMembers(chain, k);
      chain := RemoveAt(chain, k);
      LowerLevel();
      len := len - 1;
      ValidIntro();
    }

    method Remove(key: uint64) returns (ok: bool)
      requires Valid()
      modifies Repr()
      ensures Valid() && Repr() <= old(Repr())
      ensures ok <==> HasKey(old(Entries()), key)
      ensures Entries() == Drop(old(Entries()), key)
      ensures ok ==> 1 <= LowerIdx(old(chain), key) < |old(chain)|
      ensures chain == if ok then RemoveAt(old(chain), LowerIdx(old(chain), key)) else old(chain)
      ensures forall n :: n in old(chain) ==> n.value == old(n.value)
    {
      hide Wf, Shape, Valid, Links, LowerIdx, Prevs, RemoveAt, Found, Objects, Values, HasKey, Drop;
      ValidFacts();
      InRepr(chain);
      RankOfValues(chain, key);
      var node, ps := FindRemovePoint(key);
      ValuesRemove(chain, key);
      if node == null {
        return false;
      }
      FoundIsNode(chain, key);
      ghost var c := RemoveAt(chain, LowerIdx(chain, key));
      ghost var es := Values(c);
      SnapshotOf(c);
      DropNode(node, ps);
      SnapshotOf(c);
      assert Values(c) == es;
      return true;
    }

    method Clear()
      requires Valid()
      modifies this, head.next
      ensures Valid() && Repr() <= old(Repr())
      ensures Entries() == []
    {
      var i := 0;
      while i < head.next.Length
        modifies head.next
        invariant 0 <= i <= head.next.Length
        invariant forall j :: 0 <= j < i ==> head.next[j] == null
      {
        head.next[i] := null;
        i := i + 1;
      }
      chain := [head];
      level := 1;
      len := 0;
    }

    // ---------- queries ----------

    method IsEmpty() returns (r: bool)
      requires Valid()
      ensures r <==> Entries() == []
    {
      r := len == 0;
    }

    method Find(key: uint64) returns (v: Option<V>)
      requires Valid()
      ensures v == Lookup(Entries(), key)
    {
      RankOfValues(chain, key);
      var n := FindNode(key);
      if n != null {
        FoundIsNode(chain, key);
        return n.value;
      }
      return None;
    }

    method Has(key: uint64) returns (r: bool)
      requires Valid()
      ensures r <==> HasKey(Entries(), key)
    {
      RankOfValues(chain, key);
      var n := FindNode(key);
      r := n != null;
    }

    /** An iterator at the first key not below `key`. */
    method LowerBound(key: uint64) returns (it: Iterator<V>)
      requires Valid()
      ensures fresh(it) && it.end == null && it.node == At(chain, 1 + Rank(Entries(), key))
    {
      RankOfValues(chain, key);
      var n := LowerBoundNode(key);
      it := new Iterator(n, null);
    }

    /** An iterator at the first key above `key`. */
    method UpperBound(key: uint64) returns (it: Iterator<V>)
      requires Valid()
      ensures fresh(it) && it.end == null && it.node == At(chain, 1 + UpperRank(Entries(), key))
    {
      hide Valid, Rank, LowerIdx, HasKey;
      ValidFacts();
      RankOfValues(chain, key);
      SnapshotOf(chain);
      var n := UpperBoundNode(key);
      it := new Iterator(n, null);
    }

    /** An iterator at the smallest key. */
    method Iterate() returns (it: Iterator<V>)
      requires Valid()
      ensures fresh(it) && it.end == null && it.node == At(chain, 1)
    {
      BottomLink(0);
      it := new Iterator(head.next[0], null);
    }

    /** The entry at position i, read from its node. */
    lemma EntryAt(i: nat)
      requires Valid() && i <= |Entries()|
      ensures At(chain, i + 1) == null <==> i == |Entries()|
      ensures i < |Entries()| ==>
        var n := At(chain, i + 1);
        n in Repr() && n.next in Repr() && n.key == Entries()[i].key && n.value == Entries()[i].value
        && 0 < n.next.Length && n.next[0] == At(chain, i + 2)
    {
      hide Valid, Values, Objects;
      Basics();
      if i < |Entries()| {
        BottomLink(i + 1);
        ValueAt(chain, i);
        InRepr(chain);
      }
    }

    /** Removing the key of entry `at` takes out exactly that entry and its node. */
    lemma DropAtPosition(at: nat)
      requires Valid() && at < |Entries()|
      ensures var key := Entries()[at].key;
        && HasKey(Entries(), key) && LowerIdx(chain, key) == at + 1 < |chain|
        && Drop(Entries(), key) == Entries()[..at] + Entries()[at + 1..]
    {
      ValuesSorted(chain);
      RankOfKey(Entries(), at);
      RankOfValues(chain, Entries()[at].key);
    }

    /** The bottom level runs through every position. */
    lemma BottomLink(p: nat)
      requires Valid() && p < |chain|
      ensures 0 < chain[p].next.Length && chain[p].next[0] == At(chain, p + 1)
    {
      Bottom(chain, p);
      Follow(chain, p, 0);
    }

    /** Every level is the increasing run of exactly the nodes that reach it. */
    lemma LevelChain(i: nat)
      requires Valid() && i < MAX_LEVEL
      ensures var w := Walk(chain, head.next[i], i, |chain|);
        AscendingFrom(w, -1) && forall n :: n in w <==> n in chain[1..] && i < n.next.Length
    {
      hide Wf, Ascending, Separate, Walk, Taller, NextTall, Links, AscendingFrom;
      ValidFacts();
      Follow(chain, 0, i);
      WalkVisitsTaller(chain, 1, i);
      WalkFuel(chain, 1, i, |chain|);
      TallerMembers(chain, 1, i);
      assert Ascending(chain) by {
        WfAscends(chain);
      }
      TallerAscends(chain, 1, i, -1);
    }

    /** The level is that of the tallest node, or 1. */
    lemma LevelIsTallest()
      requires Valid()
      ensures forall p :: 1 <= p < |chain| ==> chain[p].next.Length <= level
      ensures level == 1 || exists n :: n in chain[1..] && n.next.Length == level
    {
      if level > 1 {
        var q := NextTall(chain, 1, level - 1);
        Follow(chain, 0, level - 1);
        assert chain[1..][q - 1] == chain[q];
      }
    }
  }

  /** A cursor over the bottom level. */
  class Iterator<V> {
    var node: Node?<V>
    const end: Node?<V>

    constructor (node: Node?<V>, end: Node?<V>)
      ensures this.node == node && this.end == end
    {
      this.node := node;
      this.end := end;
    }

    predicate IsNotEnd()
      reads this
    {
      node != end
    }

    /** From entry i of the list it runs over to entry i + 1, or to the end behind the last one. */
    method MoveToNext(ghost list: SkipList<V>, ghost i: nat)
      requires list.Valid() && i < |list.Entries()| && node == At(list.chain, i + 1) && this !in list.Repr()
      modifies this
      ensures list.Valid() && node == At(list.chain, i + 2) && (node == null <==> i + 1 == |list.Entries()|)
      ensures node != null ==> Key() == list.Entries()[i + 1].key && Value() == list.Entries()[i + 1].value
    {
      hide SkipList.Valid, SkipList.Entries, SkipList.Repr, At;
      list.EntryAt(i);
      list.EntryAt(i + 1);
      node := node.next[0];
      list.EntryAt(i + 1);
    }

    function Key(): uint64
      requires node != null
      reads this
    {
      node.key
    }

    function Value(): Option<V>
      requires node != null
      reads this, node
    {
      node.value
    }
  }
}
