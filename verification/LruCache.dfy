/** The LRU cache: a map and a list over shared entries, changed by every operation. */
module LruCaches {
  import opened LruSpec
  import opened Options
  import opened Seqs

  class Element<K, V> {
    const key: K
    var value: V
    var expires: int

    constructor (key: K, value: V, expires: int)
      ensures this.key == key && this.value == value && this.expires == expires
    {
      this.key, this.value, this.expires := key, value, expires;
    }
  }

  function ItemsOf<K, V>(es: seq<Element<K, V>>): (items: seq<Item<K, V>>)
    reads es
    ensures |items| == |es|
  {
    seq(|es|, i requires 0 <= i < |es| reads es => Item(es[i].key, es[i].value, es[i].expires))
  }

  function IndexOf<T(==)>(s: seq<T>, x: T): (i: nat)
    requires x in s
    ensures i < |s| && s[i] == x
  {
    if s[0] == x then 0 else IndexOf(s[1..], x) + 1
  }

  class LruCache<K(==), V> {
    const config: Config
    var cache: map<K, Element<K, V>>
    var lru: seq<Element<K, V>>      // front is least recent
    var evicted: seq<Item<K, V>>     // the calls of the eviction callback

    constructor (config: Config)
      ensures Valid() && this.config == config && Items() == [] && evicted == []
    {
      this.config := config;
      cache, lru, evicted := map[], [], [];
    }

    /** The map and the list hold the same entries, once each. */
    ghost predicate Valid()
      reads this
    {
      && (forall i :: 0 <= i < |lru| ==> lru[i].key in cache && cache[lru[i].key] == lru[i])
      && (forall k :: k in cache ==> cache[k] in lru && cache[k].key == k)
      && Distinct(lru)
    }

    ghost function Items(): seq<Item<K, V>>
      reads this, lru
    {
      ItemsOf(lru)
    }

    lemma Finds(key: K)
      requires Valid()
      ensures DistinctKeys(Items())
      ensures key in cache <==> Place(Items(), key) >= 0
      ensures key in cache ==> lru[Place(Items(), key)] == cache[key] && IndexOf(lru, cache[key]) == Place(Items(), key)
    {
      var i := Place(Items(), key);
      if i >= 0 {
        assert lru[i].key == Items()[i].key == key;
      }
      if key in cache {
        var j := IndexOf(lru, cache[key]);
        assert Items()[j].key == key;
      }
    }

    /** The map and the list without their entry n still agree. */
    lemma Remains(n: nat)
      requires Valid() && n < |lru|
      ensures var key, es := lru[n].key, RemoveAt(lru, n);
        && key in cache && cache[key] == lru[n] && Distinct(es)
        && (forall i :: 0 <= i < |es| ==> es[i].key in cache && es[i].key != key && cache[es[i].key] == es[i])
        && (forall k :: k in cache && k != key ==> cache[k] in es && cache[k].key == k)
    {
      hide RemoveAt;
      var es := RemoveAt(lru, n);
      forall i | 0 <= i < |es|
        ensures es[i].key in cache && es[i].key != lru[n].key && cache[es[i].key] == es[i]
      {
        var j := if i < n then i else i + 1;
        assert es[i] == lru[j] && cache[lru[j].key] == lru[j];
      }
      forall k | k in cache && k != lru[n].key
        ensures cache[k] in es
      {
        var j := IndexOf(lru, cache[k]);
        assert es[if j < n then j else j - 1] == cache[k];
      }
    }

    method DeleteElement(le: Element<K, V>)
      requires Valid() && le in lru
      modifies this
      ensures Valid() && lru == RemoveAt(old(lru), IndexOf(old(lru), le))
      ensures Items() == RemoveAt(old(Items()), IndexOf(old(lru), le))
      ensures evicted == old(evicted) + [Item(le.key, le.value, le.expires)]
    {
      hide ItemsOf, IndexOf, RemoveAt, Distinct;
      var n := IndexOf(lru, le);
      Remains(n);
      ItemsRemove(lru, n);
      lru := RemoveAt(lru, n);
      cache := cache - {le.key};
      evicted := evicted + [Item(le.key, le.value, le.expires)];
    }

    method MaybeDeleteOldest(now: int)
      requires Valid()
      modifies this
      ensures Valid()
      ensures forall e :: e in lru ==> e in old(lru)
      ensures Items() == Purge(config, old(Items()), now)
      ensures evicted == old(evicted) + Expired(config, old(Items()), now)
    {
      hide Valid, RemoveAt;
      if config.Expires() {
        while lru != [] && lru[0].expires <= now
          invariant Valid() && forall e :: e in lru ==> e in old(lru)
          invariant Purge(config, old(Items()), now) == Purge(config, Items(), now)
          invariant old(evicted) + Expired(config, old(Items()), now) == evicted + Expired(config, Items(), now)
          decreases |lru|
        {
          FirstItem(lru);
          ghost var es, es', gone := Items(), Items()[1..], evicted;
          DropFirst(lru);
          DropFirst(es);
          DeleteElement(lru[0]);
          assert Items() == es';
          Associate(gone, [es[0]], Expired(config, es', now));
        }
        if lru != [] {
          FirstItem(lru);
        }
      }
    }

    /** MoveToBack, and the entry's new contents. */
    method Refresh(le: Element<K, V>, value: V, expires: int)
      requires Valid() && le in lru
      modifies this`lru, le
      ensures Valid() && lru == RemoveAt(old(lru), IndexOf(old(lru), le)) + [le]
      ensures Items() == RemoveAt(old(Items()), IndexOf(old(lru), le)) + [Item(le.key, value, expires)]
    {
      hide ItemsOf, IndexOf;
      var n := IndexOf(lru, le);
      ghost var rest := RemoveAt(lru, n);
      ItemsRemove(lru, n);
      RemovedIsGone(lru, n);
      lru := RemoveAt(lru, n) + [le];
      le.value, le.expires := value, expires;
      assert ItemsOf(rest) == old(ItemsOf(rest));
      ItemsSnoc(rest, le);
    }

    method PushBack(key: K, value: V, expires: int) returns (e: Element<K, V>)
      requires Valid() && key !in cache
      modifies this`lru, this`cache
      ensures Valid() && fresh(e) && e.key == key && lru == old(lru) + [e]
      ensures Items() == old(Items()) + [Item(key, value, expires)]
    {
      hide ItemsOf;
      e := new Element(key, value, expires);
      ghost var was := lru;
      cache := cache[key := e];
      lru := lru + [e];
      assert ItemsOf(was) == old(ItemsOf(was));
      ItemsSnoc(was, e);
    }

    /** Stores a value under a key with a given expiry; now is the clock when expired entries are purged. */
    method SetWithExpire(key: K, value: V, expires: int, now: int)
      requires Valid()
      modifies this, lru
      ensures Valid() && fresh((set e | e in lru) - (set e | e in old(lru)))
      ensures Items() == Apply(config, old(Items()), Op.SetWithExpire(key, value, expires, now))
      ensures evicted == old(evicted) + Evicted(config, old(Items()), Op.SetWithExpire(key, value, expires, now))
    {
      hide Valid, Items, RemoveAt, Place, IndexOf, Purge, Expired;
      ghost var es := Items();
      Finds(key);
      ghost var x := Item(key, value, expires);
      if key in cache {
        ListedInCache(key);
        Refresh(cache[key], value, expires);
        RemoveSubset(old(lru), Place(es, key), cache[key]);
      } else {
        var e := PushBack(key, value, expires);
        SameLength();
        if config.maxSize > 0 {
          if |lru| > config.maxSize {
            FirstInList();
            DropFirst(lru);
            DropFirst(Items());
            DeleteElement(lru[0]);
          }
        }
      }
      assert Items() == Insert(config, es, x);
      assert evicted == old(evicted) + Overflow(config, es, x);
      MaybeDeleteOldest(now);
      Associate(old(evicted), Overflow(config, es, x), Expired(config, Insert(config, es, x), now));
    }

    method Set(key: K, value: V, now: int, later: int)
      requires Valid()
      modifies this, lru
      ensures Valid() && fresh((set e | e in lru) - (set e | e in old(lru)))
      ensures Items() == Apply(config, old(Items()), Op.Set(key, value, now, later))
      ensures evicted == old(evicted) + Evicted(config, old(Items()), Op.Set(key, value, now, later))
    {
      hide Valid, Items, Place, Insert, Overflow, Purge, Expired;
      var expires := 0;
      if config.maxAge > 0 {
        expires := now + config.maxAge;
      }
      SetWithExpire(key, value, expires, later);
    }

    /** The unexported get: a hit moves the entry to the back, and an expired entry is deleted instead. */
    method Lookup(key: K, now: int, later: int) returns (r: Option<Element<K, V>>)
      requires Valid()
      modifies this, lru
      ensures Valid() && forall e :: e in lru ==> e in old(lru)
      ensures Items() == Apply(config, old(Items()), Op.Get(key, now, later))
      ensures evicted == old(evicted) + Evicted(config, old(Items()), Op.Get(key, now, later))
      ensures r.Some? <==> Hit(config, old(Items()), key, now)
      ensures r.Some? ==> |Items()| > 0 && lru != [] && r.value == lru[|lru| - 1]
      ensures r.Some? ==> Some(r.value.value) == Answer(config, old(Items()), key, now)
      ensures r.Some? ==> r.value.expires == Items()[|Items()| - 1].expires
      ensures r.Some? && config.maxAge > 0 && config.updateAgeOnGet ==> r.value.expires == later + config.maxAge
      ensures r.Some? && !(config.maxAge > 0 && config.updateAgeOnGet) ==>
                r.value.expires == old(Items())[Place(old(Items()), key)].expires
    {
      hide Valid, Items, RemoveAt, Place, IndexOf, Purge, Expired;
      ghost var es := Items();
      Finds(key);
      if key !in cache {
        return None;
      }
      ListedInCache(key);
      var le := cache[key];
      ghost var i := Place(es, key);
      ItemAt(i);
      RemoveSubset(lru, i, le);
      if !config.staleReturn && config.maxAge > 0 && le.expires <= now {
        DeleteElement(le);
        Associate(old(evicted), [es[i]], Expired(config, RemoveAt(es, i), later));
        MaybeDeleteOldest(later);
        return None;
      }
      if config.maxAge > 0 && config.updateAgeOnGet {
        Refresh(le, le.value, later + config.maxAge);
      } else {
        Refresh(le, le.value, le.expires);
      }
      SameLength();
      ItemAt(|lru| - 1);
      r := Some(le);
    }

    /** The value of a key, if there is one that may be returned. */
    method Get(key: K, now: int, later: int) returns (r: Option<V>)
      requires Valid()
      modifies this, lru
      ensures Valid() && forall e :: e in lru ==> e in old(lru)
      ensures Items() == Apply(config, old(Items()), Op.Get(key, now, later))
      ensures evicted == old(evicted) + Evicted(config, old(Items()), Op.Get(key, now, later))
      ensures r == Answer(config, old(Items()), key, now)
    {
      hide Valid, Items, Apply, Evicted;
      var e := Lookup(key, now, later);
      r := if e.Some? then Some(e.value.value) else None;
    }

    /** As Get, with the expiry as it stands afterwards. */
    method GetWithExpire(key: K, now: int, later: int) returns (r: Option<(V, int)>)
      requires Valid()
      modifies this, lru
      ensures Valid() && forall e :: e in lru ==> e in old(lru)
      ensures Items() == Apply(config, old(Items()), Op.Get(key, now, later))
      ensures evicted == old(evicted) + Evicted(config, old(Items()), Op.Get(key, now, later))
      ensures r.Some? <==> Hit(config, old(Items()), key, now)
      ensures r.Some? ==> Some(r.value.0) == Answer(config, old(Items()), key, now)
      ensures r.Some? ==> |Items()| > 0 && r.value.1 == Items()[|Items()| - 1].expires
      ensures r.Some? && config.maxAge > 0 && config.updateAgeOnGet ==> r.value.1 == later + config.maxAge
      ensures r.Some? && !(config.maxAge > 0 && config.updateAgeOnGet) ==>
                r.value.1 == old(Items())[Place(old(Items()), key)].expires
    {
      hide Valid, Items, Apply, Evicted;
      var e := Lookup(key, now, later);
      r := if e.Some? then Some((e.value.value, e.value.expires)) else None;
    }

    /** Whether a key is there, expired or not; this touches nothing. */
    method Exist(key: K) returns (ok: bool)
      requires Valid()
      ensures ok <==> Place(Items(), key) >= 0
    {
      Finds(key);
      ok := key in cache;
    }

    method Delete(key: K)
      requires Valid()
      modifies this
      ensures Valid() && forall e :: e in lru ==> e in old(lru)
      ensures Items() == Apply(config, old(Items()), Op.Delete(key))
      ensures evicted == old(evicted) + Evicted(config, old(Items()), Op.Delete(key))
    {
      hide Valid, Items, RemoveAt, Place, IndexOf;
      ghost var i := Place(Items(), key);
      Finds(key);
      if key in cache {
        ListedInCache(key);
        ItemAt(i);
        RemoveSubset(lru, i, cache[key]);
        DeleteElement(cache[key]);
      }
    }

    lemma ItemAt(i: nat)
      requires i < |lru|
      ensures |Items()| == |lru| && Items()[i] == Item(lru[i].key, lru[i].value, lru[i].expires)
    {}

    lemma ListedInCache(key: K)
      requires Valid() && key in cache
      ensures cache[key] in lru && cache[key].key == key
    {}

    lemma SameLength()
      ensures |Items()| == |lru|
    {}

    lemma FirstInList()
      ensures lru != [] ==>
                && Items() != [] && Items()[0] == Item(lru[0].key, lru[0].value, lru[0].expires)
                && IndexOf(lru, lru[0]) == 0
    {}
  }

  lemma RemovedIsGone<T>(s: seq<T>, n: nat)
    requires Distinct(s) && n < |s|
    ensures s[n] !in RemoveAt(s, n) && Distinct(RemoveAt(s, n))
    ensures forall x :: x in RemoveAt(s, n) ==> x in s
  {}

  lemma RemoveSubset<T>(s: seq<T>, n: nat, x: T)
    requires n < |s| && x == s[n]
    ensures forall y :: y in RemoveAt(s, n) + [x] ==> y in s
  {}

  lemma ItemsSnoc<K, V>(es: seq<Element<K, V>>, e: Element<K, V>)
    ensures ItemsOf(es + [e]) == ItemsOf(es) + [Item(e.key, e.value, e.expires)]
  {}

  lemma DropFirst<T>(s: seq<T>)
    requires s != []
    ensures RemoveAt(s, 0) == s[1..]
  {}

  lemma FirstItem<K, V>(es: seq<Element<K, V>>)
    requires es != []
    ensures ItemsOf(es)[0] == Item(es[0].key, es[0].value, es[0].expires)
    ensures IndexOf(es, es[0]) == 0
  {}

  lemma ItemsRemove<K, V>(es: seq<Element<K, V>>, n: nat)
    requires n < |es|
    ensures ItemsOf(RemoveAt(es, n)) == RemoveAt(ItemsOf(es), n)
  {}
}
