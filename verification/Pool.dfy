/**
 * The anytls client: which session is idle, which is in use, and by whom.
 *
 * Every public call and every received frame is one atomic step.  Ghost sets
 * split the open sessions into `pool` (idle), the domain of `owner` (carrying
 * one live stream) and `loose` (in the hands of the step under way).
 */
module SessionPool {
  import opened Ints
  import opened Options
  import opened Seqs
  import opened SortedEntries
  import opened SkipListChains
  import opened SkipLists
  import opened CleanupSpec

  const MAX_UINT64: uint64 := TWO_64 - 1

  class Session {
    const seqNum: uint64
    var closed: bool
    var hooked: bool
    var idleSince: int
    var streamId: uint32
    var streams: map<uint32, Stream>

    constructor (seqNum: uint64)
      ensures this.seqNum == seqNum && !closed && !hooked && streamId == 0 && streams == map[]
    {
      this.seqNum := seqNum;
      closed, hooked, idleSince, streamId, streams := false, false, 0, 0, map[];
    }
  }

  class Stream {
    const id: uint32
    const sess: Session
    var dead: bool
    var hooked: bool

    constructor (id: uint32, sess: Session)
      ensures this.id == id && this.sess == sess && !dead && !hooked
    {
      this.id, this.sess, dead, hooked := id, sess, false, false;
    }
  }

  /** The pool key of a session: newer sessions have smaller keys. */
  function KeyOf(s: Session): uint64 {
    MAX_UINT64 - s.seqNum
  }

  ghost predicate DistinctSeqs(ss: set<Session>) {
    forall s, t :: s in ss && t in ss && s.seqNum == t.seqNum ==> s == t
  }

  /** Does this map hold exactly these sessions, each under its key? */
  ghost predicate Holds(m: map<uint64, Option<Session>>, pool: set<Session>) {
    && (forall k :: k in m ==> m[k].Some? && m[k].value in pool && KeyOf(m[k].value) == k)
    && (forall s :: s in pool ==> KeyOf(s) in m)
  }

  ghost predicate PoolIs(es: seq<Entry<Session>>, pool: set<Session>) {
    Sorted(es) && Holds(AsMap(es), pool)
  }

  lemma PoolPut(es: seq<Entry<Session>>, pool: set<Session>, s: Session)
    requires PoolIs(es, pool) && DistinctSeqs(pool + {s})
    ensures PoolIs(Put(es, KeyOf(s), Some(s)), pool + {s})
  {
    hide Put, AsMap, Sorted;
    PutSorted(es, KeyOf(s), Some(s));
    PutUpdatesMap(es, KeyOf(s), Some(s));
  }

  lemma PoolDrop(es: seq<Entry<Session>>, pool: set<Session>, s: Session)
    requires PoolIs(es, pool) && DistinctSeqs(pool + {s})
    ensures PoolIs(Drop(es, KeyOf(s)), pool - {s})
    ensures HasKey(es, KeyOf(s)) <==> s in pool
  {
    hide Drop, HasKey, AsMap, Sorted;
    LookupInMap(es, KeyOf(s));
    DropUpdatesMap(es, KeyOf(s));
  }

  /** Reading the pool by position. */
  lemma PoolAt(es: seq<Entry<Session>>, pool: set<Session>, i: nat)
    requires PoolIs(es, pool) && i < |es|
    ensures es[i].value.Some? && es[i].value.value in pool && es[i].key == KeyOf(es[i].value.value)
  {
    AsMapAt(es, i);
  }

  /** The first entry is the session created last. */
  lemma PoolNewest(es: seq<Entry<Session>>, pool: set<Session>)
    requires PoolIs(es, pool)
    ensures es == [] <==> pool == {}
    ensures es != [] ==> es[0].value.Some? && es[0].value.value in pool
    ensures es != [] ==> es[0].key == KeyOf(es[0].value.value)
    ensures es != [] ==> forall s :: s in pool ==> s.seqNum <= es[0].value.value.seqNum
  {
    hide AsMap;
    if es != [] {
      PoolAt(es, pool, 0);
    }
    forall s | s in pool
      ensures es != [] && s.seqNum <= es[0].value.value.seqNum
    {
      var i := KeyInMap(es, KeyOf(s));
    }
  }

  ghost predicate PoolOk(list: SkipList<Session>, pool: set<Session>)
    reads list, list.Repr()
  {
    list.Valid() && PoolIs(list.Entries(), pool)
  }

  /** Open sessions are not closed, and `sessions` finds exactly them by number. */
  ghost predicate Registered(open: set<Session>, sessions: map<uint64, Session>)
    reads open
  {
    && (forall s :: s in open ==> !s.closed && s.hooked && s.seqNum in sessions && sessions[s.seqNum] == s)
    && (forall k :: k in sessions ==> sessions[k] in open && sessions[k].seqNum == k)
  }

  lemma RegisteredMinus(open: set<Session>, sessions: map<uint64, Session>, s: Session)
    requires Registered(open, sessions) && s in open
    ensures s.hooked && !s.closed && s.seqNum in sessions && sessions[s.seqNum] == s
    ensures Registered(open - {s}, sessions - {s.seqNum})
  {}

  lemma RegisteredAll(open: set<Session>, sessions: map<uint64, Session>)
    requires Registered(open, sessions)
    ensures sessions.Values == open && DistinctSeqs(open)
  {
    forall s | s in open
      ensures s in sessions.Values
    {
      assert sessions[s.seqNum] == s;
    }
  }

  lemma RegisteredPlus(open: set<Session>, sessions: map<uint64, Session>, s: Session)
    requires Registered(open - {s}, sessions - {s.seqNum}) && s in open
    requires !s.closed && s.hooked && s.seqNum in sessions && sessions[s.seqNum] == s
    ensures Registered(open, sessions)
  {
    forall k | k in sessions
      ensures sessions[k] in open && sessions[k].seqNum == k
    {
      if k != s.seqNum {
        assert k in sessions - {s.seqNum};
      }
    }
  }

  /** An owned session carries its owner and nothing else; the others carry nothing. */
  ghost predicate Owned(open: set<Session>, owner: map<Session, Stream>)
    reads open, owner.Keys, owner.Values
  {
    && (forall s :: s in owner ==>
          var st := owner[s]; st.sess == s && !st.dead && st.hooked && s.streams == map[st.id := st])
    && (forall s :: s in open && s !in owner ==> s.streams == map[])
  }

  lemma OwnedIdle(open: set<Session>, owner: map<Session, Stream>)
    requires Owned(open, owner)
    ensures forall s :: s in open && s !in owner ==> s.streams == map[]
  {}

  lemma OwnedBy(owner: map<Session, Stream>, open: set<Session>, s: Session)
    requires Owned(open, owner) && s in owner
    ensures owner[s].sess == s && s.streams == map[owner[s].id := owner[s]]
  {}

  /** No other live stream hangs off this session. */
  lemma OtherStreams(owner: map<Session, Stream>, open: set<Session>, s: Session)
    requires Owned(open, owner)
    ensures forall st :: st in (owner - {s}).Values ==> st.sess != s
    ensures forall id :: id in s.streams && (s in open || s in owner) ==> s.streams[id].sess == s
    ensures s in owner ==> s.streams.Values == {owner[s]}
    ensures s in open && s !in owner ==> s.streams.Values == {}
  {
    if s in owner {
      assert s.streams[owner[s].id] == owner[s];
    }
  }

  lemma OwnedMinus(open: set<Session>, owner: map<Session, Stream>, s: Session)
    requires Owned(open, owner)
    ensures Owned(open - {s}, owner - {s})
  {}

  lemma OwnedMore(open: set<Session>, owner: map<Session, Stream>, s: Session)
    requires Owned(open, owner) && s.streams == map[]
    ensures Owned(open + {s}, owner)
  {}

  lemma OwnedPlus(open: set<Session>, owner: map<Session, Stream>, s: Session, st: Stream)
    requires Owned(open, owner)
    requires st.sess == s && !st.dead && st.hooked && s.streams == map[st.id := st]
    ensures Owned(open + {s}, owner[s := st])
  {}

  class Client {
    var dead: bool
    var sessionCounter: uint64
    const idleSession: SkipList<Session>
    var sessions: map<uint64, Session>
    const minIdleSession: int
    ghost var pool: set<Session>
    ghost var owner: map<Session, Stream>
    ghost var loose: set<Session>
    ghost var created: nat           // sessions so far

    ghost function Open(): set<Session>
      reads this
    {
      pool + owner.Keys + loose
    }

    ghost function Footprint(): set<object>
      reads this, idleSession
    {
      {this} + idleSession.Repr() + Open() + owner.Values
    }

    /** The bookkeeping that every moment of a step keeps. */
    ghost predicate Core()
      reads this, idleSession, idleSession.Repr(), Open()
    {
      && PoolOk(idleSession, pool)
      && pool !! owner.Keys && pool !! loose && owner.Keys !! loose
      && Registered(Open(), sessions)
    }

    ghost predicate Inv()
      reads this, idleSession, idleSession.Repr(), Open(), owner.Values
    {
      Core() && Owned(Open(), owner) && loose == {} && Numbered()
    }

    /** Sessions are numbered from 1 on, and the numbers wrap around. */
    ghost predicate Numbered()
      reads this`sessionCounter, this`created, this`sessions
    {
      sessionCounter == created % TWO_64 && (created < TWO_64 ==> forall k :: k in sessions.Keys ==> k <= created)
    }

    /** The next number is not in use, at least until 2^64 - 1 sessions have been made. */
    lemma NextNumberFree()
      requires Inv() && created < TWO_64 - 1
      ensures (sessionCounter + 1) % TWO_64 !in sessions
    {}

    constructor (minIdleSession: int)
      ensures Inv() && fresh(Footprint()) && Open() == {} && !dead && this.minIdleSession == minIdleSession
    {
      hide PoolIs, Registered, Owned, SkipList.Valid, SkipList.Entries;
      dead, sessionCounter, sessions := false, 0, map[];
      idleSession := new SkipList();
      this.minIdleSession := minIdleSession;
      pool, owner, loose, created := {}, map[], {}, 0;
      new;
      NothingPooled();
      NothingOpen();
      assert Open() == {};
    }

    /** The context the client was made with is cancelled: it is dead, but its sessions are still open. */
    method Cancel()
      requires Inv()
      modifies this`dead
      ensures Inv() && dead
    {
      hide PoolOk, Registered, Owned;
      Disjoint();
      dead := true;
    }

    /** Takes the newest idle session out of the pool. */
    method GetIdleSession() returns (idle: Session?)
      requires Core() && loose == {}
      modifies this`pool, this`loose, idleSession.Repr()
      ensures Core() && fresh(idleSession.Repr() - old(idleSession.Repr()))
      ensures idle == null <==> old(pool) == {}
      ensures idle == null ==> pool == old(pool) && loose == {}
      ensures idle != null ==>
        && idle in old(pool) && pool == old(pool) - {idle} && loose == {idle}
        && forall s :: s in old(pool) ==> s.seqNum <= idle.seqNum
    {
      hide PoolIs, Registered, SkipList.Valid, SkipList.Entries, SkipList.Repr, At, HasKey, Drop;
      idle := null;
      PoolNewest(idleSession.Entries(), pool);
      PoolSubset();
      Disjoint();
      var empty := idleSession.IsEmpty();
      if !empty {
        var it := idleSession.Iterate();
        idleSession.EntryAt(0);
        idle := it.Value().value;
        TakeOut(it.Key(), idle);
      }
    }

    /** Removes a pooled session by its key. */
    method TakeOut(key: uint64, ghost s: Session)
      requires Core() && loose == {} && s in pool && key == KeyOf(s)
      modifies this`pool, this`loose, idleSession.Repr()
      ensures Core() && idleSession.Repr() <= old(idleSession.Repr())
      ensures pool == old(pool) - {s} && loose == {s}
    {
      hide PoolIs, Registered, SkipList.Valid, SkipList.Entries, SkipList.Repr, HasKey, Drop;
      PoolSubset();
      assert s in Open();
      PoolDrop(idleSession.Entries(), pool, s);
      Disjoint();
      var removed := idleSession.Remove(key);
      ghost var open := Open();
      pool, loose := pool - {s}, {s};
      assert Open() == open;
    }

    /** The skip list owns no client, session or stream. */
    lemma Disjoint()
      ensures this !in idleSession.Repr()
      ensures forall s: Session :: s !in idleSession.Repr()
      ensures forall st: Stream :: st !in idleSession.Repr()
    {}

    lemma PoolSubset()
      requires Core()
      ensures forall s :: s in Open() ==> DistinctSeqs(pool + {s})
    {}

    lemma NextNumber(counter: uint64, count: nat)
      requires counter == count % TWO_64
      ensures (counter + 1) % TWO_64 == (count + 1) % TWO_64
    {}

    /** Dials and registers a new session; it is loose until a stream takes it. */
    method CreateSession(dialOk: bool) returns (s: Session?)
      requires Core() && loose == {}
      requires (sessionCounter + 1) % TWO_64 !in sessions && Numbered()
      modifies this`sessionCounter, this`sessions, this`loose, this`created
      ensures Core() && (s != null <==> dialOk)
      ensures s == null ==> loose == {} && sessions == old(sessions)
      ensures Numbered()
      ensures s != null ==> fresh(s) && loose == {s} && s.streams == map[] && s.streamId == 0
      ensures s != null ==> s.seqNum == sessionCounter == (old(sessionCounter) + 1) % TWO_64
      ensures s != null ==> sessions == old(sessions)[s.seqNum := s]
    {
      hide PoolIs, SkipList.Valid, SkipList.Entries, SkipList.Repr;
      NextNumber(sessionCounter, created);
      if !dialOk {
        return null;
      }
      sessionCounter := (sessionCounter + 1) % TWO_64;
      created := created + 1;
      s := new Session(sessionCounter);
      s.hooked := true;
      sessions := sessions[s.seqNum := s];
      loose := {s};
    }

    /** The hook a session runs when it dies: out of the pool, out of the table. */
    method SessionDied(s: Session)
      requires PoolOk(idleSession, pool) && DistinctSeqs(pool + {s})
      modifies this`pool, this`sessions, idleSession.Repr()
      ensures PoolOk(idleSession, pool) && idleSession.Repr() <= old(idleSession.Repr())
      ensures pool == old(pool) - {s} && sessions == old(sessions) - {s.seqNum}
    {
      hide PoolIs, SkipList.Valid, SkipList.Entries, SkipList.Repr, HasKey, Drop;
      Disjoint();
      PoolDrop(idleSession.Entries(), pool, s);
      var removed := idleSession.Remove(KeyOf(s));
      pool := pool - {s};
      sessions := sessions - {s.seqNum};
    }

    /** Session.Close: at most once, kills every stream the session still lists. */
    method CloseSession(s: Session)
      requires PoolOk(idleSession, pool) && DistinctSeqs(pool + {s})
      requires s.closed || (s.hooked && forall id :: id in s.streams ==> s.streams[id].sess == s)
      modifies this`pool, this`owner, this`loose, this`sessions, idleSession.Repr(), s, s.streams.Values
      ensures PoolOk(idleSession, pool) && idleSession.Repr() <= old(idleSession.Repr())
      ensures old(s.closed) ==> pool == old(pool) && owner == old(owner) && loose == old(loose)
      ensures old(s.closed) ==> sessions == old(sessions)
      ensures old(s.closed) ==> s.streams == old(s.streams) && s.hooked == old(s.hooked)
      ensures !old(s.closed) ==> pool == old(pool) - {s} && owner == old(owner) - {s} && loose == old(loose) - {s}
      ensures !old(s.closed) ==> sessions == old(sessions) - {s.seqNum} && s.streams == map[]
      ensures s.closed && (!old(s.closed) ==> forall st :: st in old(s.streams.Values) ==> st.dead)
    {
      hide PoolIs, SkipList.Valid, SkipList.Entries, SkipList.Repr;
      if s.closed {
        return;
      }
      Disjoint();
      ShutDown(s);
      owner, loose := owner - {s}, loose - {s};
    }

    /** Closing a session that is in use or idle, with the books kept. */
    method CloseOpen(s: Session)
      requires Core() && s in Open()
      requires forall id :: id in s.streams ==> s.streams[id].sess == s
      modifies this`pool, this`owner, this`loose, this`sessions, idleSession.Repr(), s, s.streams.Values
      ensures Core() && s.closed && idleSession.Repr() <= old(idleSession.Repr())
      ensures old(Numbered()) ==> Numbered()
      ensures pool == old(pool) - {s} && owner == old(owner) - {s} && loose == old(loose) - {s}
      ensures sessions == old(sessions) - {s.seqNum}
      ensures s.streams == map[] && forall st :: st in old(s.streams.Values) ==> st.dead
    {
      hide PoolIs, Registered, SkipList.Valid, SkipList.Entries, SkipList.Repr;
      Disjoint();
      PoolSubset();
      ghost var open := Open() - {s};
      RegisteredMinus(Open(), sessions, s);
      CloseSession(s);
      assert Open() == open;
    }

    /** What Session.Close does the first time. */
    method ShutDown(s: Session)
      requires PoolOk(idleSession, pool) && DistinctSeqs(pool + {s})
      requires s.hooked && forall id :: id in s.streams ==> s.streams[id].sess == s
      modifies this`pool, this`sessions, idleSession.Repr(), s, s.streams.Values
      ensures PoolOk(idleSession, pool) && idleSession.Repr() <= old(idleSession.Repr())
      ensures pool == old(pool) - {s} && sessions == old(sessions) - {s.seqNum}
      ensures s.closed && s.streams == map[] && forall st :: st in old(s.streams.Values) ==> st.dead
    {
      hide PoolIs, SkipList.Valid, SkipList.Entries, SkipList.Repr, DistinctSeqs;
      Disjoint();
      s.closed := true;
      if s.hooked {
        SessionDied(s);
        s.hooked := false;
      }
      KillStreams(s);
      s.streams := map[];
    }

    method KillStreams(s: Session)
      requires s.closed && forall id :: id in s.streams ==> s.streams[id].sess == s
      modifies s.streams.Values
      ensures forall st :: st in s.streams.Values ==> st.dead
    {
      var ids := s.streams.Keys;
      while ids != {}
        invariant forall id :: id in s.streams && id !in ids ==> s.streams[id].dead
        decreases ids
      {
        var id :| id in ids;
        KillStream(s.streams[id]);
        ids := ids - {id};
      }
    }

    /** Stream.closeLocally under a closed session, where the pooling hook returns at once. */
    method KillStream(st: Stream)
      requires st.sess.closed
      modifies st
      ensures st.dead
    {
      if !st.dead {
        st.dead := true;
        st.hooked := false;
      }
    }

    // ---------- streams ----------

    /** Session.OpenStream on the session in hand; a failed SYN closes the session. */
    method OpenStream(s: Session, synOk: bool) returns (st: Stream?)
      requires Core() && loose == {s} && s.streams == map[]
      modifies this`pool, this`owner, this`loose, this`sessions, idleSession.Repr(), s
      ensures Core() && idleSession.Repr() <= old(idleSession.Repr()) && (st != null <==> synOk)
      ensures old(Numbered()) ==> Numbered()
      ensures pool == old(pool) && owner == old(owner)
      ensures st == null ==> loose == {} && s.closed && sessions == old(sessions) - {s.seqNum}
      ensures st != null ==> sessions == old(sessions)
      ensures st != null ==> loose == {s} && fresh(st) && st.sess == s && !st.dead && s.streams == map[st.id := st]
      ensures st != null ==> st.id == s.streamId == (old(s.streamId) + 1) % TWO_32
    {
      hide PoolIs, SkipList.Valid, SkipList.Entries, SkipList.Repr;
      Disjoint();
      s.streamId := (s.streamId + 1) % TWO_32;
      st := new Stream(s.streamId, s);
      if !synOk {
        CloseOpen(s);
        return null;
      }
      s.streams := s.streams[st.id := st];
    }

    /** The first half of CreateStream: the newest idle session, or a new one. */
    method TakeSession(dialOk: bool) returns (s: Session?)
      requires Inv() && (sessionCounter + 1) % TWO_64 !in sessions
      modifies this`pool, this`loose, this`sessions, this`sessionCounter, this`created, idleSession.Repr()
      ensures Numbered() && Core() && Owned(Open(), owner) && fresh(idleSession.Repr() - old(idleSession.Repr()))
      ensures s == null <==> old(pool) == {} && !dialOk
      ensures s == null ==> loose == {} && pool == {} && sessions == old(sessions)
      ensures s != null ==> loose == {s} && s.streams == map[] && pool == old(pool) - {s}
      ensures s != null && old(pool) != {} ==> s in old(pool) && forall t :: t in old(pool) ==> t.seqNum <= s.seqNum
      ensures s != null && old(pool) != {} ==> sessions == old(sessions)
      ensures s != null && old(pool) == {} ==>
                fresh(s) && s.seqNum !in old(sessions) && sessions == old(sessions)[s.seqNum := s]
    {
      hide PoolIs, Registered, Owned, SkipList.Valid, SkipList.Entries, SkipList.Repr;
      Disjoint();
      OwnedIdle(Open(), owner);
      ghost var open := Open();
      s := GetIdleSession();
      assert Open() == open;
      if s == null {
        s := CreateSession(dialOk);
        if s != null {
          OwnedMore(open, owner, s);
          assert Open() == open + {s};
        }
      }
    }

    /** The second half of CreateStream: open a stream and install its hook. */
    method UseSession(s: Session, synOk: bool) returns (st: Stream?)
      requires Core() && Owned(Open(), owner) && loose == {s} && s.streams == map[] && Numbered()
      modifies this`pool, this`owner, this`loose, this`sessions, idleSession.Repr(), s
      ensures Inv() && idleSession.Repr() <= old(idleSession.Repr()) && (st == null <==> !synOk)
      ensures pool == old(pool)
      ensures st == null ==> owner == old(owner) && s.closed && sessions == old(sessions) - {s.seqNum}
      ensures st != null ==> fresh(st) && st.sess == s && owner == old(owner)[s := st] && sessions == old(sessions)
    {
      hide Numbered, PoolOk, Registered, Owned, SkipList.Repr, SkipList.Valid;
      Disjoint();
      OwnedMinus(Open(), owner, s);
      ghost var open := Open() - {s};
      assert owner - {s} == owner;
      st := OpenStream(s, synOk);
      if st == null {
        assert Open() == open;
        return null;
      }
      st.hooked := true;
      OwnedPlus(open, owner, s, st);
      owner, loose := owner[s := st], {};
      assert Open() == open + {s};
    }

    /**
     * Client.CreateStream: a stream on the newest idle session, or on a new
     * one; `used` is the session the call took.  When its SYN fails, that
     * session is closed and gone from the books, and nothing else changes.
     */
    method CreateStream(dialOk: bool, synOk: bool) returns (st: Stream?, ghost used: Session?)
      requires Inv() && (sessionCounter + 1) % TWO_64 !in sessions
      modifies this, idleSession.Repr(), pool
      ensures Inv() && dead == old(dead)
      ensures used == null <==> old(dead) || (old(pool) == {} && !dialOk)
      ensures st == null <==> used == null || !synOk
      ensures used == null ==> pool == old(pool) && owner == old(owner) && sessions == old(sessions)
      ensures used != null && old(pool) != {} ==>
                used in old(pool) && forall s :: s in old(pool) ==> s.seqNum <= used.seqNum
      ensures used != null && old(pool) == {} ==> fresh(used)
      ensures used != null ==> pool == old(pool) - {used}
      ensures used != null && st == null ==>
                && used.closed && used !in Open() && owner == old(owner)
                && sessions == old(sessions) - if old(pool) == {} then {} else {used.seqNum}
      ensures st != null ==> fresh(st) && st.sess == used && used !in old(owner) && owner == old(owner)[used := st]
    {
      hide PoolIs, Registered, Owned, SkipList.Valid, SkipList.Entries, SkipList.Repr, DistinctSeqs;
      used := null;
      if dead {
        return null, null;
      }
      Disjoint();
      var s := TakeSession(dialOk);
      if s == null {
        return null, null;
      }
      used := s;
      st := UseSession(s, synOk);
      assert st == null && old(pool) == {} ==> sessions == old(sessions);
    }

    /** Can the skip list take one more session whatever level is drawn? */
    predicate Room(draw: uint64)
      reads this, idleSession
    {
      idleSession.len < CLAMP_LEN || draw % TOTAL != 0
    }

    /** Enters a session into the pool; without room the skip list panics. */
    method EnterPool(s: Session, draw: uint64) returns (ok: bool)
      requires PoolOk(idleSession, pool) && DistinctSeqs(pool + {s}) && s !in pool
      modifies this`pool, idleSession.Repr()
      ensures PoolOk(idleSession, pool) && ok == old(Room(draw))
      ensures fresh(idleSession.Repr() - old(idleSession.Repr()))
      ensures pool == if ok then old(pool) + {s} else old(pool)
    {
      hide PoolIs, SkipList.Valid, SkipList.Entries, SkipList.Repr, HasKey, Put, DistinctSeqs, TowerAdded,
        Heights, Rank;
      Disjoint();
      ghost var es := idleSession.Entries();
      PoolPut(es, pool, s);
      PoolDrop(es, pool, s);
      ok := idleSession.Insert(KeyOf(s), Some(s), draw);
      if ok {
        pool := pool + {s};
      }
    }

    /** Puts the session of a dead stream back into the pool, with the time. */
    method Repool(s: Session, draw: uint64, now: int) returns (ok: bool)
      requires Core() && s in owner
      modifies this`pool, this`owner, idleSession.Repr(), s`idleSince
      ensures ok == old(Room(draw))
      ensures ok ==> Core() && fresh(idleSession.Repr() - old(idleSession.Repr()))
      ensures ok ==> owner == old(owner) - {s} && pool == old(pool) + {s} && s.idleSince == now
      ensures !ok ==> Core() && owner == old(owner) && pool == old(pool)
    {
      hide PoolOk, Registered, SkipList.Valid, SkipList.Entries, SkipList.Repr, DistinctSeqs;
      Disjoint();
      PoolSubset();
      ghost var open, repr := Open(), idleSession.Repr();
      Stamp(s, now);
      label Stamped:
      ok := EnterPool(s, draw);
      if ok {
        ghost var grown := idleSession.Repr();
        assert fresh@Stamped(grown - repr);
        assert forall o :: o in grown && o !in repr ==> !old(allocated(o));
        owner := owner - {s};
        assert idleSession.Repr() == grown;
        assert Open() == open;
      }
    }

    /** Sets the time since when a session counts as idle. */
    method Stamp(s: Session, now: int)
      requires Core() && s in Open()
      modifies s`idleSince
      ensures Core() && s.idleSince == now && (old(Owned(Open(), owner)) ==> Owned(Open(), owner))
    {
      hide PoolOk;
      Disjoint();
      s.idleSince := now;
    }

    /** The hook a stream runs when it dies: its session goes back to the pool, or is closed when the client is dead. */
    method StreamDied(s: Session, draw: uint64, now: int) returns (ok: bool)
      requires Core() && s in owner
      requires forall id :: id in s.streams ==> s.streams[id].sess == s
      modifies this`pool, this`owner, this`loose, this`sessions, idleSession.Repr(), s, s.streams.Values
      ensures ok <==> dead || old(Room(draw))
      ensures !ok ==> Core() && owner == old(owner) && pool == old(pool)
      ensures ok ==> Core() && fresh(idleSession.Repr() - old(idleSession.Repr()))
      ensures old(Numbered()) ==> Numbered()
      ensures ok ==> owner == old(owner) - {s} && loose == old(loose)
      ensures ok && !dead ==> pool == old(pool) + {s} && s.idleSince == now && s.streams == old(s.streams) && !s.closed
      ensures ok && !dead ==>
                forall st: Stream :: st in old(s.streams.Values) ==>
                  st.dead == old(st.dead) && st.hooked == old(st.hooked)
      ensures dead ==> pool == old(pool) && s.closed && s.streams == map[] && s.seqNum !in sessions
      ensures dead ==> forall st: Stream :: st in old(s.streams.Values) ==> st.dead
    {
      hide PoolIs, Registered, SkipList.Valid, SkipList.Entries, SkipList.Repr;
      Disjoint();
      RegisteredMinus(Open(), sessions, s);
      ok := true;
      if !s.closed {
        if dead {
          CloseOpen(s);
        } else {
          ok := Repool(s, draw, now);
        }
      }
    }

    /** Facts about a live stream and the session it owns. */
    lemma LiveStream(st: Stream)
      requires Inv() && st in owner.Values
      ensures var s := st.sess;
        && s in owner && owner[s] == st && !st.dead && st.hooked && !s.closed
        && s.streams == map[st.id := st]
        && Owned(Open() - {s}, owner - {s}) && st !in (owner - {s}).Values
    {
      var s :| s in owner && owner[s] == st;
      OwnedMinus(Open(), owner, s);
      RegisteredMinus(Open(), sessions, s);
    }

    /** What dieOnce does for a live stream: mark it and run its hook. */
    method Die(st: Stream, draw: uint64, now: int) returns (ok: bool)
      requires Inv() && st in owner.Values
      modifies this`pool, this`owner, this`loose, this`sessions, idleSession.Repr(), st, st.sess
      ensures ok <==> dead || old(Room(draw))
      ensures ok ==> Core() && st.dead && fresh(idleSession.Repr() - old(idleSession.Repr())) && loose == {}
      ensures old(Numbered()) ==> Numbered()
      ensures ok ==> st.sess in old(owner) && owner == old(owner) - {st.sess} && st !in owner.Values
      ensures ok ==> Owned(Open() - {st.sess}, owner)
      ensures ok && !dead ==> pool == old(pool) + {st.sess} && !st.sess.closed && st.sess.streams == map[st.id := st]
      ensures ok && !dead ==> st.sess.idleSince == now
      ensures dead ==> pool == old(pool) && st.sess.closed && st.sess.streams == map[] && st.sess !in Open()
    {
      hide Numbered, Room, PoolOk, Registered, Owned, SkipList.Repr, SkipList.Valid;
      Disjoint();
      var s := st.sess;
      LiveStream(st);
      ghost var rest, repr := Open() - {s}, idleSession.Repr();
      st.dead := true;
      ok := true;
      if st.hooked {
        label Dead:
        ok := StreamDied(s, draw, now);
        if !ok {
          return;
        }
        ghost var grown := idleSession.Repr();
        assert fresh@Dead(grown - repr);
        assert forall o :: o in grown && o !in repr ==> !old(allocated(o));
        st.hooked := false;
      }
      assert Open() - {s} == rest;
    }

    /**
     * Stream.Close and closeWithError: pool the session, or close it when the
     * client is dead; then tell the peer.  ok is false when the skip list panics.
     */
    method CloseStream(st: Stream, finOk: bool, draw: uint64, now: int) returns (ok: bool)
      requires Inv() && (st.dead || st in owner.Values)
      modifies this`pool, this`owner, this`loose, this`sessions, idleSession.Repr(), st, st.sess
      ensures ok <==> old(st.dead) || dead || old(Room(draw))
      ensures ok ==> Inv() && st.dead && fresh(idleSession.Repr() - old(idleSession.Repr()))
      ensures ok && old(st.dead) ==> pool == old(pool) && owner == old(owner)
      ensures ok && !old(st.dead) ==> owner == old(owner) - {st.sess}
      ensures ok && !old(st.dead) ==> pool == if finOk && !dead then old(pool) + {st.sess} else old(pool) - {st.sess}
      ensures ok && !old(st.dead) ==> (st.sess.closed <==> dead || !finOk)
      ensures ok && !old(st.dead) && st.sess in pool ==> st.sess.idleSince == now
      ensures forall s: Session :: s in old(pool) && s != st.sess ==> s.idleSince == old(s.idleSince)
    {
      hide Core, Numbered, Owned, SkipList.Repr;
      Disjoint();
      if st.dead {
        return true;
      }
      ok := CloseLive(st, finOk, draw, now);
    }

    method CloseLive(st: Stream, finOk: bool, draw: uint64, now: int) returns (ok: bool)
      requires Inv() && st in owner.Values
      modifies this`pool, this`owner, this`loose, this`sessions, idleSession.Repr(), st, st.sess
      ensures ok <==> dead || old(Room(draw))
      ensures ok ==> Inv() && st.dead && fresh(idleSession.Repr() - old(idleSession.Repr()))
      ensures ok ==> owner == old(owner) - {st.sess} && (st.sess.closed <==> dead || !finOk)
      ensures ok ==> pool == if finOk && !dead then old(pool) + {st.sess} else old(pool) - {st.sess}
      ensures ok && st.sess in pool ==> st.sess.idleSince == now
    {
      hide Numbered, Room, PoolOk, Registered, Owned, SkipList.Repr, SkipList.Valid;
      Disjoint();
      LiveStream(st);
      var s := st.sess;
      ok := Die(st, draw, now);
      if !ok {
        return;
      }
      ghost var rest := Open() - {s};
      FinishClose(st, finOk);
      if finOk && !dead {
        OwnedMore(rest, owner, s);
        assert rest + {s} == Open();
      } else {
        assert rest == Open();
      }
    }

    /** A FIN frame: the stream dies without a reply. */
    method ReceiveFin(s: Session, sid: uint32, draw: uint64, now: int) returns (ok: bool)
      requires Inv() && s in Open()
      modifies this`pool, this`owner, this`loose, this`sessions, idleSession.Repr(), s, s.streams.Values
      ensures ok <==> sid !in old(s.streams) || dead || old(Room(draw))
      ensures ok ==> Inv() && fresh(idleSession.Repr() - old(idleSession.Repr()))
      ensures sid !in old(s.streams) ==> pool == old(pool) && owner == old(owner)
      ensures ok && sid in old(s.streams) ==>
        && old(s.streams[sid]).dead && s in old(owner) && old(owner)[s] == old(s.streams[sid])
        && owner == old(owner) - {s} && pool == (if dead then old(pool) else old(pool) + {s}) && (s.closed <==> dead)
        && (s in pool ==> s.idleSince == now)
      ensures forall t: Session :: t in old(pool) && (t != s || sid !in old(s.streams)) ==>
                t.idleSince == old(t.idleSince)
    {
      hide Numbered, Room, PoolOk, Registered, Owned, SkipList.Repr, SkipList.Valid;
      ok := true;
      Disjoint();
      if sid in s.streams {
        OwnedIdle(Open(), owner);
        OwnedBy(owner, Open(), s);
        var st := s.streams[sid];
        ok := Die(st, draw, now);
        if !ok {
          return;
        }
        ghost var rest := Open() - {s};
        if !s.closed {
          ForgetStream(st);
          OwnedMore(rest, owner, s);
          assert rest + {s} == Open();
        } else {
          assert rest == Open();
        }
      }
    }

    method ForgetStream(st: Stream)
      requires Core() && st.sess in Open() && st.sess.streams == map[st.id := st]
      modifies st.sess`streams
      ensures Core() && st.sess.streams == map[]
    {
      hide PoolIs, Registered, SkipList.Valid, SkipList.Entries, SkipList.Repr;
      var s := st.sess;
      RegisteredMinus(Open(), sessions, s);
      s.streams := s.streams - {st.id};
      RegisteredPlus(Open(), sessions, s);
    }

    /** Session.streamClosed: send FIN, forget the stream. */
    method FinishClose(st: Stream, finOk: bool)
      requires Core() && (st.sess.closed || (st.sess in pool && st.sess.streams == map[st.id := st]))
      modifies this`pool, this`owner, this`loose, this`sessions, idleSession.Repr(), st, st.sess
      ensures Core() && idleSession.Repr() <= old(idleSession.Repr())
      ensures old(Numbered()) ==> Numbered()
      ensures owner == old(owner) && loose == old(loose) && (old(st.dead) ==> st.dead)
      ensures old(st.sess.closed) ==> pool == old(pool) && st.sess.streams == old(st.sess.streams) && st.sess.closed
      ensures !old(st.sess.closed) ==> st.sess.streams == map[] && (st.sess.closed <==> !finOk)
      ensures !old(st.sess.closed) ==> pool == if finOk then old(pool) else old(pool) - {st.sess}
      ensures finOk ==> st.sess.idleSince == old(st.sess.idleSince)
    {
      hide PoolIs, Registered, SkipList.Valid, SkipList.Entries, SkipList.Repr;
      var s := st.sess;
      Disjoint();
      if s.closed {
        return;
      }
      if finOk {
        ForgetStream(st);
      } else {
        assert s.streams[st.id] in s.streams.Values;
        CloseOpen(s);
      }
    }

    // ---------- closing ----------

    /** Closing one listed session; `open` and `table` are the books without the others. */
    method CloseListed(s: Session, ghost open: set<Session>, ghost table: map<uint64, Session>)
      requires PoolOk(idleSession, pool) && loose == {} && pool !! owner.Keys
      requires Open() == open && Registered(open, table) && Owned(open, owner) && s in open
      modifies this`pool, this`owner, this`loose, this`sessions, idleSession.Repr(), s, s.streams.Values
      ensures PoolOk(idleSession, pool) && idleSession.Repr() <= old(idleSession.Repr()) && loose == {}
      ensures pool == old(pool) - {s} && owner == old(owner) - {s} && sessions == old(sessions) - {s.seqNum}
      ensures Open() == open - {s} && Registered(open - {s}, table - {s.seqNum}) && Owned(open - {s}, owner)
      ensures s.closed && (s in old(owner) ==> old(owner)[s].dead)
    {
      hide PoolOk, Registered, Owned;
      Disjoint();
      RegisteredAll(open, table);
      RegisteredMinus(open, table, s);
      OwnedMinus(open, owner, s);
      OtherStreams(owner, open, s);
      CloseSession(s);
    }

    /** The end of a receive loop, or any other Session.Close. */
    method FailSession(s: Session)
      requires Inv() && (s in Open() || s.closed)
      modifies this`pool, this`owner, this`loose, this`sessions, idleSession.Repr(), s, s.streams.Values
      ensures Inv() && idleSession.Repr() <= old(idleSession.Repr()) && s.closed
      ensures !old(s.closed) ==> pool == old(pool) - {s} && owner == old(owner) - {s}
      ensures old(s.closed) ==> pool == old(pool) && owner == old(owner)
      ensures !old(s.closed) && s in old(owner) ==> old(owner)[s].dead
    {
      hide PoolOk, Registered, Owned;
      if s.closed {
        return;
      }
      CloseListed(s, Open(), sessions);
    }

    /** Sessions and streams that Client.Close is done with. */
    ghost predicate Gone(ss: set<Session>, owner0: map<Session, Stream>)
      reads ss, owner0.Values
    {
      forall s :: s in ss ==> s.closed && (s in owner0 ==> owner0[s].dead)
    }

    /** One round of the loop of Client.Close. */
    method CloseNext(s: Session, ghost rest: set<Session>, ghost table: map<uint64, Session>, ghost done: set<Session>,
                     ghost owner0: map<Session, Stream>)
      requires PoolOk(idleSession, pool) && loose == {} && pool !! owner.Keys && s in rest
      requires Open() == rest && Registered(rest, table) && Owned(rest, owner) && Gone(done, owner0)
      requires owner == owner0 - done && s !in done
      modifies this`pool, this`owner, this`loose, this`sessions, idleSession.Repr(), s, owner0.Values
      ensures PoolOk(idleSession, pool) && idleSession.Repr() <= old(idleSession.Repr())
      ensures loose == {} && pool !! owner.Keys && sessions == old(sessions) - {s.seqNum}
      ensures Open() == rest - {s} && Registered(rest - {s}, table - {s.seqNum}) && Owned(rest - {s}, owner)
      ensures owner == owner0 - (done + {s}) && Gone(done + {s}, owner0)
    {
      hide PoolOk, Registered, Owned, SkipList.Repr, DistinctSeqs;
      Disjoint();
      ClosedStreams(owner0, owner, rest, s);
      CloseListed(s, rest, table);
    }

    /** The loop of Client.Close, over the sessions it has copied. */
    method CloseAll(sessionToClose: set<Session>, ghost was: map<uint64, Session>)
      requires PoolOk(idleSession, pool) && loose == {} && pool !! owner.Keys && sessions == map[]
      requires Open() == sessionToClose && Registered(sessionToClose, was) && Owned(sessionToClose, owner)
      modifies this`pool, this`owner, this`loose, this`sessions, idleSession.Repr(), sessionToClose, owner.Values
      ensures PoolOk(idleSession, pool) && Open() == {} && sessions == map[]
      ensures forall s :: s in sessionToClose ==> s.closed
      ensures forall s :: s in old(owner) ==> old(owner)[s].dead
    {
      hide PoolOk, Registered, Owned, SkipList.Repr, DistinctSeqs, Gone;
      Disjoint();
      var rest := sessionToClose;
      ghost var table, owner0, done := was, owner, {};
      NoneGone(owner0);
      while rest != {}
        invariant PoolOk(idleSession, pool) && loose == {} && pool !! owner.Keys && sessions == map[]
        invariant Open() == rest && Registered(rest, table) && Owned(rest, owner)
        invariant rest !! done && rest + done == sessionToClose
        invariant idleSession.Repr() <= old(idleSession.Repr())
        invariant owner == owner0 - done && Gone(done, owner0)
        decreases rest
      {
        var s :| s in rest;
        CloseNext(s, rest, table, done, owner0);
        rest := rest - {s};
        done := done + {s};
        table := table - {s.seqNum};
      }
      AllGone(sessionToClose, owner0);
    }

    lemma NoneGone(owner0: map<Session, Stream>)
      ensures Gone({}, owner0)
    {}

    lemma AllGone(ss: set<Session>, owner0: map<Session, Stream>)
      requires Gone(ss, owner0)
      ensures forall s :: s in ss ==> s.closed && (s in owner0 ==> owner0[s].dead)
    {}

    /** Which streams a closing session takes along. */
    lemma ClosedStreams(owner0: map<Session, Stream>, owner: map<Session, Stream>, open: set<Session>, s: Session)
      requires Owned(open, owner) && s in open
      requires owner.Keys <= owner0.Keys && forall t :: t in owner ==> owner[t] == owner0[t]
      ensures s.streams.Values <= owner0.Values
      ensures s in owner ==> s.streams.Values == {owner[s]}
      ensures s !in owner ==> s.streams.Values == {}
    {
      OtherStreams(owner, open, s);
    }

    /** Client.Close: every session dies, in any order. */
    method Close()
      requires Inv()
      modifies this, idleSession.Repr(), Open(), owner.Values
      ensures Inv() && dead && Open() == {} && sessions == map[]
      ensures forall s :: s in old(Open()) ==> s.closed
      ensures forall s :: s in old(owner) ==> old(owner)[s].dead
    {
      hide PoolOk, Registered, Owned, SkipList.Repr, DistinctSeqs;
      Disjoint();
      dead := true;
      var sessionToClose := sessions.Values;
      ghost var was := sessions;
      RegisteredAll(Open(), sessions);
      sessions := map[];
      CloseAll(sessionToClose, was);
      NothingOpen();
    }

    lemma NothingPooled()
      ensures PoolIs([], {})
    {}

    lemma NothingOpen()
      ensures Registered({}, map[]) && Owned({}, map[])
    {}

    // ---------- idle cleanup ----------

    /** Takes the session at position `at` of the pool out while an iterator has moved past it. */
    method Discard(s: Session, ghost at: nat)
      requires Core() && Owned(Open(), owner) && s in pool
      requires at < |idleSession.Entries()| && idleSession.Entries()[at] == Entry(KeyOf(s), Some(s))
      modifies this`pool, this`loose, idleSession.Repr()
      ensures Core() && Owned(Open(), owner) && idleSession.Repr() <= old(idleSession.Repr())
      ensures pool == old(pool) - {s} && loose == old(loose) + {s}
      ensures pool + loose == old(pool + loose)
      ensures idleSession.Entries() == old(idleSession.Entries()[..at] + idleSession.Entries()[at + 1..])
      ensures at + 1 < |old(idleSession.chain)| && idleSession.chain == RemoveAt(old(idleSession.chain), at + 1)
    {
      hide Registered, Owned, PoolIs, SkipList.Valid, SkipList.Entries, SkipList.Repr, DistinctSeqs,
        LowerIdx, HasKey, Drop, RemoveAt;
      Disjoint();
      PoolSubset();
      ghost var es, open := idleSession.Entries(), Open();
      PoolDrop(es, pool, s);
      idleSession.DropAtPosition(at);
      var ok := idleSession.Remove(KeyOf(s));
      pool, loose := pool - {s}, loose + {s};
      assert Open() == open;
    }

    /** The sweep after i entries: survivors so far, then the entries still to come. */
    ghost predicate Swept(es: seq<Entry<Session>>, ss: seq<Session>, ex: seq<bool>, was: seq<int>, now: int, i: nat,
                          active: int, closing: seq<Session>)
      reads this, idleSession, Footprint()
      requires |es| == |ss| == |ex| == |was|
    {
      && i <= |es| && Core() && Owned(Open(), owner)
      && idleSession.Entries() == Kept(es, ex, minIdleSession, i) + es[i..]
      && active == KeptCount(ex, minIdleSession, i)
      && closing == Removed(ss, ex, minIdleSession, i)
      && loose == (set s | s in closing)
      && (forall m :: i <= m < |es| ==> ss[m] in pool && ss[m].idleSince == was[m])
      && (forall m :: 0 <= m < i && Survives(ex, minIdleSession, m) ==>
            ss[m] in pool && ss[m].idleSince == if ex[m] then now else was[m])
    }

    lemma SweptEntry(es: seq<Entry<Session>>, ss: seq<Session>, ex: seq<bool>, was: seq<int>, now: int, i: nat,
                     active: int, closing: seq<Session>)
      requires EntriesOf(es, ss) && |was| == |ex| == |es| && Swept(es, ss, ex, was, now, i, active, closing)
      ensures idleSession.Valid() && 0 <= active <= |idleSession.Entries()|
      ensures i == |es| <==> active == |idleSession.Entries()|
      ensures i < |es| ==>
        && idleSession.Entries()[active] == es[i] == Entry(KeyOf(ss[i]), Some(ss[i]))
        && ss[i] in pool && ss[i].idleSince == was[i]
        && (Survives(ex, minIdleSession, i) <==> !ex[i] || active < minIdleSession)
    {}

    lemma IteratorApart(it: Iterator<Session>)
      requires it !in idleSession.Repr()
      ensures it !in Footprint() && it as object != idleSession && it as object != this
    {}

    lemma SweptKept(es: seq<Entry<Session>>, ss: seq<Session>, ex: seq<bool>, was: seq<int>, now: int, i: nat,
                    active: int, closing: seq<Session>)
      requires EntriesOf(es, ss) && |was| == |ex| == |es| && i < |es| && !ex[i]
      requires Swept(es, ss, ex, was, now, i, active, closing)
      ensures Swept(es, ss, ex, was, now, i + 1, active + 1, closing)
    {
      hide Core, Owned, Kept, Removed, KeptCount;
      StepKeep(es, ex, minIdleSession, i);
      StepKeep(ss, ex, minIdleSession, i);
    }

    method SweepTouch(s: Session, now: int, ghost es: seq<Entry<Session>>, ghost ss: seq<Session>, ghost ex: seq<bool>,
                      ghost was: seq<int>, ghost i: nat, ghost active: int, ghost closing: seq<Session>)
      requires EntriesOf(es, ss) && |was| == |ex| == |es| && i < |es|
      requires s == ss[i] && ex[i] && Survives(ex, minIdleSession, i)
      requires Swept(es, ss, ex, was, now, i, active, closing)
      modifies s`idleSince
      ensures Swept(es, ss, ex, was, now, i + 1, active + 1, closing) && s.idleSince == now
    {
      hide Owned, PoolOk, Registered, Kept, Removed, KeptCount, SkipList.Entries, SkipList.Repr;
      Disjoint();
      StepKeep(es, ex, minIdleSession, i);
      StepKeep(ss, ex, minIdleSession, i);
      Stamp(s, now);
    }

    method SweepDiscard(s: Session, ghost es: seq<Entry<Session>>, ghost ss: seq<Session>, ghost ex: seq<bool>,
                        ghost was: seq<int>, now: int, ghost i: nat, ghost active: int, ghost closing: seq<Session>)
      requires EntriesOf(es, ss) && |was| == |ex| == |es| && i < |es| && s == ss[i] && !Survives(ex, minIdleSession, i)
      requires Swept(es, ss, ex, was, now, i, active, closing) && 0 <= active
      modifies this`pool, this`loose, idleSession.Repr()
      ensures Swept(es, ss, ex, was, now, i + 1, active, closing + [s]) && idleSession.Repr() <= old(idleSession.Repr())
      ensures pool + loose == old(pool + loose)
      ensures At(idleSession.chain, active + 1) == old(At(idleSession.chain, active + 2))
    {
      hide Owned, PoolOk, Registered, Kept, Removed, KeptCount, SkipList.Entries, SkipList.Repr, RemoveAt, At;
      Disjoint();
      SweptEntry(es, ss, ex, was, now, i, active, closing);
      StepRemove(es, ex, minIdleSession, i);
      StepRemove(ss, ex, minIdleSession, i);
      ghost var c := idleSession.chain;
      Discard(s, active);
      AtRemoved(c, active + 1);
    }

    /** One round of the sweep's loop. */
    method SweepOne(it: Iterator<Session>, expTime: int, now: int, ghost es: seq<Entry<Session>>,
                    ghost ss: seq<Session>, ghost ex: seq<bool>, ghost was: seq<int>, ghost i: nat,
                    activeCount: int, sessionToClose: seq<Session>)
      returns (active: int, closing: seq<Session>)
      requires EntriesOf(es, ss) && |was| == |ex| == |es| && i < |es| && ex[i] == (was[i] < expTime)
      requires Swept(es, ss, ex, was, now, i, activeCount, sessionToClose)
      requires it !in idleSession.Repr() && 0 <= activeCount && it.node == At(idleSession.chain, activeCount + 1)
      modifies it, this`pool, this`loose, idleSession.Repr(), {ss[i]}
      ensures Swept(es, ss, ex, was, now, i + 1, active, closing)
      ensures 0 <= active && it.node == At(idleSession.chain, active + 1)
      ensures idleSession.Repr() <= old(idleSession.Repr()) && pool + loose == old(pool + loose)
    {
      hide Swept, PoolOk, Registered, Owned, SkipList.Valid, SkipList.Entries, Kept, Removed, KeptCount,
        Survives, At, RemoveAt, EntriesOf, Distinct, Core, Holds, PoolIs;
      SweptEntry(es, ss, ex, was, now, i, activeCount, sessionToClose);
      idleSession.EntryAt(activeCount);
      IteratorApart(it);
      var session := it.Value().value;
      it.MoveToNext(idleSession, activeCount);
      if !(session.idleSince < expTime) {
        SweptKept(es, ss, ex, was, now, i, activeCount, sessionToClose);
        return activeCount + 1, sessionToClose;
      }
      if activeCount < minIdleSession {
        SweepTouch(session, now, es, ss, ex, was, i, activeCount, sessionToClose);
        return activeCount + 1, sessionToClose;
      }
      SweepDiscard(session, es, ss, ex, was, now, i, activeCount, sessionToClose);
      return activeCount, sessionToClose + [session];
    }

    /** The locked loop of idleCleanupExpTime: collects what is to be closed. */
    method Sweep(it: Iterator<Session>, expTime: int, now: int, ghost es: seq<Entry<Session>>, ghost ss: seq<Session>,
                 ghost ex: seq<bool>, ghost was: seq<int>)
      returns (sessionToClose: seq<Session>)
      requires EntriesOf(es, ss) && |was| == |ex| == |es| == |ss| && Swept(es, ss, ex, was, now, 0, 0, [])
      requires forall m :: 0 <= m < |es| ==> ss[m] in pool && ex[m] == (was[m] < expTime)
      requires it !in idleSession.Repr() && it.end == null && it.node == At(idleSession.chain, 1)
      modifies it, this`pool, this`loose, idleSession.Repr(), pool
      ensures Swept(es, ss, ex, was, now, |es|, KeptCount(ex, minIdleSession, |es|), sessionToClose)
      ensures idleSession.Repr() <= old(idleSession.Repr()) && pool + loose == old(pool + loose)
    {
      hide Swept, PoolOk, Registered, Owned, SkipList.Valid, SkipList.Entries, Kept, Removed, KeptCount,
        Survives, At, RemoveAt, EntriesOf, Objects;
      var activeCount := 0;
      sessionToClose := [];
      ghost var i := 0;
      while it.IsNotEnd()
        invariant 0 <= i <= |es| && 0 <= activeCount && it !in idleSession.Repr()
        invariant Swept(es, ss, ex, was, now, i, activeCount, sessionToClose)
        invariant it.node == At(idleSession.chain, activeCount + 1)
        invariant idleSession.Repr() <= old(idleSession.Repr()) && pool + loose == old(pool + loose)
        decreases |es| - i
      {
        SweptMore(es, ss, ex, was, now, i, activeCount, sessionToClose);
        activeCount, sessionToClose := SweepOne(it, expTime, now, es, ss, ex, was, i, activeCount, sessionToClose);
        i := i + 1;
      }
      SweptMore(es, ss, ex, was, now, i, activeCount, sessionToClose);
    }

    lemma SweptStart(es: seq<Entry<Session>>, ss: seq<Session>, ex: seq<bool>, was: seq<int>, now: int)
      requires Inv() && es == idleSession.Entries() && EntriesOf(es, ss) && |was| == |ex| == |es|
      requires forall m :: 0 <= m < |es| ==> ss[m] in pool && ss[m].idleSince == was[m]
      ensures |ss| == |es| && Swept(es, ss, ex, was, now, 0, 0, []) && idleSession.Valid()
    {
      hide Registered, Owned, PoolIs;
    }

    lemma SweptMore(es: seq<Entry<Session>>, ss: seq<Session>, ex: seq<bool>, was: seq<int>, now: int, i: nat,
                    active: int, closing: seq<Session>)
      requires EntriesOf(es, ss) && |was| == |ex| == |es| && Swept(es, ss, ex, was, now, i, active, closing)
      ensures 0 <= active && active == KeptCount(ex, minIdleSession, i)
      ensures At(idleSession.chain, active + 1) == null <==> i == |es|
    {
      SweptEntry(es, ss, ex, was, now, i, active, closing);
      idleSession.EntryAt(active);
    }

    method CloseOneLoose(s: Session)
      requires Core() && Owned(Open(), owner) && s in loose
      modifies this`pool, this`owner, this`loose, this`sessions, idleSession.Repr(), s
      ensures Core() && Owned(Open(), owner) && idleSession.Repr() <= old(idleSession.Repr())
      ensures old(Numbered()) ==> Numbered()
      ensures pool == old(pool) && owner == old(owner) && loose == old(loose) - {s} && s.closed
    {
      hide PoolOk, Registered, Owned, SkipList.Valid, SkipList.Entries, SkipList.Repr;
      Disjoint();
      OwnedIdle(Open(), owner);
      OwnedMinus(Open(), owner, s);
      ghost var rest := Open() - {s};
      assert owner - {s} == owner;
      CloseOpen(s);
      assert Open() == rest;
    }

    /** Closes collected sessions, which nobody holds any more. */
    method CloseLoose(sessionToClose: seq<Session>)
      requires Core() && Owned(Open(), owner) && loose == (set s | s in sessionToClose)
      requires Distinct(sessionToClose) && Numbered()
      modifies this`pool, this`owner, this`loose, this`sessions, idleSession.Repr(), sessionToClose
      ensures Inv() && pool == old(pool) && owner == old(owner) && idleSession.Repr() <= old(idleSession.Repr())
      ensures forall s :: s in sessionToClose ==> s.closed
    {
      hide Core, Owned, Objects;
      for k := 0 to |sessionToClose|
        invariant Core() && Owned(Open(), owner) && loose == (set s | s in sessionToClose[k..])
        invariant Numbered()
        invariant pool == old(pool) && owner == old(owner) && idleSession.Repr() <= old(idleSession.Repr())
        invariant forall m :: 0 <= m < k ==> sessionToClose[m].closed
      {
        Disjoint();
        assert sessionToClose[k..] == [sessionToClose[k]] + sessionToClose[k + 1..];
        CloseOneLoose(sessionToClose[k]);
      }
    }

    /** The idle sessions in pool order, newest first. */
    ghost function Idle(): (ss: seq<Session>)
      reads this, idleSession, idleSession.Repr()
      requires PoolOk(idleSession, pool)
    {
      SessionsOf(idleSession.Entries(), pool)
    }

    /** Idle lists every pooled session, and nothing else. */
    lemma IdleIsPool()
      requires Core()
      ensures forall s :: s in Idle() <==> s in pool
    {
      hide Registered, Owned, SkipList.Valid, SkipList.Entries, SkipList.Repr;
      PoolSubset();
      forall s | s in pool
        ensures s in Idle()
      {
        ListedAt(idleSession.Entries(), pool, s);
      }
    }

    /** What a finished sweep leaves. */
    lemma SweptDone(es: seq<Entry<Session>>, ss: seq<Session>, ex: seq<bool>, was: seq<int>, now: int,
                    active: int, closing: seq<Session>)
      requires EntriesOf(es, ss) && |was| == |ex| == |es| && Swept(es, ss, ex, was, now, |es|, active, closing)
      ensures Core() && Owned(Open(), owner) && loose == (set s | s in closing)
      ensures Distinct(closing) && forall s :: s in closing ==> s in ss
      ensures Idle() == Kept(ss, ex, minIdleSession, |ss|) && closing == Removed(ss, ex, minIdleSession, |ss|)
      ensures forall m :: 0 <= m < |ss| && Survives(ex, minIdleSession, m) ==>
                ss[m] in pool && ss[m].idleSince == if ex[m] then now else was[m]
    {
      hide PoolIs, Registered, Owned, SkipList.Valid, Survives;
      KeptTogether(es, ss, ex, minIdleSession, |es|);
      PartsDistinct(ss, ex, minIdleSession, |ss|);
      KeptMembers(ss, ex, minIdleSession, |ss|);
      EntriesUnique(idleSession.Entries(), Idle(), Kept(ss, ex, minIdleSession, |ss|));
    }

    /** The first half of idleCleanupExpTime. */
    method Collect(expTime: int, now: int, ghost es: seq<Entry<Session>>, ghost ss: seq<Session>,
                   ghost ex: seq<bool>, ghost was: seq<int>)
      returns (sessionToClose: seq<Session>)
      requires Inv() && es == idleSession.Entries() && EntriesOf(es, ss) && |was| == |ex| == |es| == |ss|
      requires forall m :: 0 <= m < |es| ==> ss[m] in pool && ss[m].idleSince == was[m] && ex[m] == (was[m] < expTime)
      modifies this`pool, this`loose, idleSession.Repr(), pool
      ensures Core() && Owned(Open(), owner) && loose == (set s | s in sessionToClose)
      ensures pool + loose == old(pool) && idleSession.Repr() <= old(idleSession.Repr())
      ensures Distinct(sessionToClose) && forall s :: s in sessionToClose ==> s in ss
      ensures Idle() == Kept(ss, ex, minIdleSession, |ss|) && sessionToClose == Removed(ss, ex, minIdleSession, |ss|)
      ensures forall m :: 0 <= m < |ss| && Survives(ex, minIdleSession, m) ==>
                ss[m] in pool && ss[m].idleSince == if ex[m] then now else was[m]
    {
      hide Swept, PoolIs, Registered, Owned, Separate, Ascending, Links, SkipList.Entries, Kept, Removed,
        KeptCount, EntriesOf, Survives, Distinct, SessionsOf;
      var it := idleSession.Iterate();
      SweptStart(es, ss, ex, was, now);
      sessionToClose := Sweep(it, expTime, now, es, ss, ex, was);
      SweptDone(es, ss, ex, was, now, KeptCount(ex, minIdleSession, |es|), sessionToClose);
    }

    /** Client.idleCleanupExpTime: sweep under the lock, then close what was collected. */
    method IdleCleanup(expTime: int, now: int)
      requires Inv()
      modifies this`pool, this`loose, this`owner, this`sessions, idleSession.Repr(), pool
      ensures Inv() && owner == old(owner) && idleSession.Repr() <= old(idleSession.Repr())
      ensures var ss, was := old(Idle()), old(Times(Idle()));
        var ex := Expired(was, expTime);
        && |was| == |ss|
        && Idle() == Kept(ss, ex, minIdleSession, |ss|)
        && (forall s :: s in Removed(ss, ex, minIdleSession, |ss|) ==> s.closed)
        && (forall m :: 0 <= m < |ss| && Survives(ex, minIdleSession, m) ==>
              ss[m].idleSince == if ex[m] then now else was[m])
      ensures forall s :: s in old(pool) && old(s.idleSince) >= expTime ==>
                s in pool && s in Idle() && !s.closed && s.idleSince == old(s.idleSince)
    {
      hide PoolIs, Registered, Owned, Separate, Ascending, Links, SkipList.Entries, Kept, Removed, KeptCount,
        Survives, EntriesOf, SessionsOf, Distinct, Objects;
      Disjoint();
      IdleIsPool();
      ghost var es, ss := idleSession.Entries(), Idle();
      ghost var was := Times(ss);
      ghost var ex := Expired(was, expTime);
      UnexpiredStays(ss, was, expTime, minIdleSession);
      var sessionToClose := Collect(expTime, now, es, ss, ex, was);
      ghost var fs, p := idleSession.Entries(), pool;
      CloseLoose(sessionToClose);
      PoolSubset();
      PoolUnique(fs, idleSession.Entries(), p);
      IdleIsPool();
      OpenOnes();
    }

    lemma OpenOnes()
      requires Core()
      ensures forall s :: s in pool ==> !s.closed
    {}

    /**
     * A stream is closed and the idle cleanup runs after it: the session given
     * back stays idle unless the cleanup looks for sessions idle since before
     * some later time.
     */
    method CloseThenCleanup(st: Stream, draw: uint64, now: int, expTime: int, later: int) returns (ok: bool)
      requires Inv() && st in owner.Values && !dead && expTime <= now
      modifies this`pool, this`owner, this`loose, this`sessions, idleSession.Repr(), st, st.sess, pool
      ensures ok <==> old(Room(draw))
      ensures ok ==> Inv() && st.sess in Idle() && !st.sess.closed && st.sess.idleSince == now
    {
      hide Core, Inv, Numbered, Owned, SkipList.Repr, Idle, Kept, Removed;
      Disjoint();
      LiveStream(st);
      ok := CloseStream(st, true, draw, now);
      if ok {
        IdleCleanup(expTime, later);
      }
    }
  }

  /** A pool is held by one list of entries only. */
  lemma PoolUnique(es: seq<Entry<Session>>, fs: seq<Entry<Session>>, pool: set<Session>)
    requires PoolIs(es, pool) && PoolIs(fs, pool) && DistinctSeqs(pool)
    ensures es == fs
  {
    assert AsMap(es) == AsMap(fs);
    SortedUnique(es, fs);
  }

  lemma EntriesUnique(es: seq<Entry<Session>>, ss: seq<Session>, ts: seq<Session>)
    requires EntriesOf(es, ss) && EntriesOf(es, ts)
    ensures ss == ts
  {
    forall m | 0 <= m < |es|
      ensures ss[m] == ts[m]
    {
      assert es[m].value == Some(ss[m]);
    }
  }

  lemma {:induction false} KeptTogether(es: seq<Entry<Session>>, ss: seq<Session>, ex: seq<bool>, min: int, i: nat)
    requires EntriesOf(es, ss) && |ex| == |es| && i <= |es|
    ensures EntriesOf(Kept(es, ex, min, i), Kept(ss, ex, min, i))
  {
    PartsDistinct(ss, ex, min, i);
    if i > 0 {
      KeptTogether(es, ss, ex, min, i - 1);
    }
  }

  /** The pool entries and the sessions they hold. */
  ghost predicate EntriesOf(es: seq<Entry<Session>>, ss: seq<Session>) {
    && |es| == |ss|
    && (forall m :: 0 <= m < |es| ==> es[m] == Entry(KeyOf(ss[m]), Some(ss[m])))
    && Distinct(ss)
  }

  /** The sessions held by the entries of a pool. */
  ghost function SessionsOf(es: seq<Entry<Session>>, pool: set<Session>): (ss: seq<Session>)
    requires PoolIs(es, pool)
    ensures |ss| == |es| && EntriesOf(es, ss) && forall m :: 0 <= m < |ss| ==> ss[m] in pool
  {
    PoolEntries(es, pool);
    seq(|es|, i requires 0 <= i < |es| && es[i].value.Some? => es[i].value.value)
  }

  lemma PoolEntries(es: seq<Entry<Session>>, pool: set<Session>)
    requires PoolIs(es, pool)
    ensures forall i :: 0 <= i < |es| ==>
      es[i].value.Some? && es[i].value.value in pool && es[i].key == KeyOf(es[i].value.value)
  {
    forall i | 0 <= i < |es|
      ensures es[i].value.Some? && es[i].value.value in pool && es[i].key == KeyOf(es[i].value.value)
    {
      PoolAt(es, pool, i);
    }
  }

  lemma ListedAt(es: seq<Entry<Session>>, pool: set<Session>, s: Session)
    requires PoolIs(es, pool) && s in pool && DistinctSeqs(pool + {s})
    ensures s in SessionsOf(es, pool)
  {
    hide AsMap, Sorted, SessionsOf;
    var i := KeyInMap(es, KeyOf(s));
    PoolAt(es, pool, i);
    assert SessionsOf(es, pool)[i] == s;
  }

  /** A session that has not expired survives the sweep. */
  lemma UnexpiredStays(ss: seq<Session>, was: seq<int>, expTime: int, min: int)
    requires |ss| == |was|
    ensures forall m :: 0 <= m < |ss| && was[m] >= expTime ==>
              ss[m] in Kept(ss, Expired(was, expTime), min, |ss|) && Survives(Expired(was, expTime), min, m)
  {
    forall m | 0 <= m < |ss| && was[m] >= expTime
      ensures ss[m] in Kept(ss, Expired(was, expTime), min, |ss|)
    {
      UnexpiredKept(ss, Expired(was, expTime), min, |ss|, m);
    }
  }

  ghost function Times(ss: seq<Session>): (was: seq<int>)
    reads ss
    ensures |was| == |ss| && forall m :: 0 <= m < |ss| ==> was[m] == ss[m].idleSince
  {
    seq(|ss|, i requires 0 <= i < |ss| reads ss => ss[i].idleSince)
  }

  ghost function Expired(was: seq<int>, expTime: int): (r: seq<bool>)
    ensures |r| == |was| && forall m :: 0 <= m < |was| ==> r[m] == (was[m] < expTime)
  {
    seq(|was|, m requires 0 <= m < |was| => was[m] < expTime)
  }
}
