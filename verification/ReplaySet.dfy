/**
 The bounded single-use token set (crates/discovery/src/replay.rs). A backing log may refuse a
 write; whether it does is an input. Unix time is in seconds.
 */
module ReplaySet {
  import opened Collections

  type Token = nat
  type Entries = map<Token, nat>

  function Unexpired(entries: Entries, now: nat): Entries {
    map t | t in entries && entries[t] >= now :: entries[t]
  }

  /** A full set first drops its expired entries. */
  function WithRoom(entries: Entries, maxEntries: nat, now: nat): Entries {
    if |entries| >= maxEntries then Unexpired(entries, now) else entries
  }

  predicate Accepts(entries: Entries, maxEntries: nat, token: Token, now: nat, logged: bool) {
    token !in entries && |WithRoom(entries, maxEntries, now)| < maxEntries && logged
  }

  function AfterInsert(entries: Entries, maxEntries: nat, token: Token, expiry: nat, now: nat, logged: bool): Entries {
    if token in entries then entries
    else if Accepts(entries, maxEntries, token, now, logged) then WithRoom(entries, maxEntries, now)[token := expiry]
    else WithRoom(entries, maxEntries, now)
  }

  predicate Contains(entries: Entries, token: Token, now: nat) {
    token in entries && entries[token] >= now
  }

  /** No lookup from `now` on can tell whether expired entries were dropped; what is dropped is
      exactly what refused a token without counting as held. */
  lemma EvictionIsInvisible(entries: Entries, now: nat, token: Token, t: nat)
    requires t >= now
    ensures Contains(Unexpired(entries, now), token, t) <==> Contains(entries, token, t)
    ensures token in Unexpired(entries, now) <==> Contains(entries, token, now)
    ensures |Unexpired(entries, now)| <= |entries|
  {
    SubsetSize(Unexpired(entries, now).Keys, entries.Keys);
  }

  /** Nothing that has not expired is lost or changed by an insertion. */
  lemma InsertKeepsUnexpired(entries: Entries, maxEntries: nat, token: Token, expiry: nat, now: nat, logged: bool,
                             held: Token)
    requires Contains(entries, held, now)
    ensures var after := AfterInsert(entries, maxEntries, token, expiry, now, logged);
      held in after && after[held] == entries[held]
  {
  }

  /** A token is accepted exactly when no entry has it, the log takes it, and there is room: the set
      is not full, or one of its entries has expired. */
  lemma AcceptsIff(entries: Entries, maxEntries: nat, token: Token, now: nat, logged: bool)
    requires |entries| <= maxEntries
    ensures Accepts(entries, maxEntries, token, now, logged) <==>
      token !in entries && logged && (|entries| < maxEntries || exists t :: t in entries && entries[t] < now)
  {
    var kept := Unexpired(entries, now);
    if t :| t in entries && entries[t] < now {
      SubsetSize(kept.Keys, entries.Keys - {t});
    } else {
      assert kept == entries;
    }
  }

  /** What an insertion means for every lookup from now on: an accepted token is held until its
      expiry, and nothing else changes. */
  lemma InsertMeans(entries: Entries, maxEntries: nat, token: Token, expiry: nat, now: nat, logged: bool, k: Token,
                    t: nat)
    requires t >= now
    ensures var after := AfterInsert(entries, maxEntries, token, expiry, now, logged);
      Contains(after, k, t) <==>
        if k == token && Accepts(entries, maxEntries, token, now, logged) then t <= expiry else Contains(entries, k, t)
  {
  }

  lemma RoomIsSmaller(entries: Entries, maxEntries: nat, now: nat)
    ensures |WithRoom(entries, maxEntries, now)| <= |entries|
  {
    SubsetSize(WithRoom(entries, maxEntries, now).Keys, entries.Keys);
  }

  lemma OneMore(room: Entries, token: Token, expiry: nat)
    ensures |room[token := expiry]| <= |room| + 1
  {
    assert room[token := expiry].Keys == room.Keys + {token};
  }

  lemma InsertStaysBounded(entries: Entries, maxEntries: nat, token: Token, expiry: nat, now: nat, logged: bool)
    requires |entries| <= maxEntries
    ensures |AfterInsert(entries, maxEntries, token, expiry, now, logged)| <= maxEntries
  {
    RoomIsSmaller(entries, maxEntries, now);
    OneMore(WithRoom(entries, maxEntries, now), token, expiry);
  }

  /** A token that is accepted was not held; but an entry past its expiry still refuses the token
      until it is dropped, although it no longer counts as held. */
  lemma ExpiredEntryStillRefuses(entries: Entries, maxEntries: nat, token: Token, now: nat, logged: bool)
    ensures Accepts(entries, maxEntries, token, now, logged) ==> !Contains(entries, token, now)
    ensures token in entries && entries[token] < now ==>
      !Contains(entries, token, now) && !Accepts(entries, maxEntries, token, now, logged)
  {
  }

  class Set {
    const maxEntries: nat
    var entries: Entries

    constructor (maxEntries: nat)
      ensures this.maxEntries == maxEntries && entries == map[]
    {
      this.maxEntries := maxEntries;
      entries := map[];
    }

    /** Frees room; no lookup from `now` on can tell. */
    method EvictExpired(now: nat)
      modifies this
      ensures entries == Unexpired(old(entries), now) && |entries| <= |old(entries)|
      ensures forall token, t :: t >= now ==> (Contains(entries, token, t) <==> Contains(old(entries), token, t))
    {
      var before := entries;
      entries := Unexpired(before, now);
      EvictionIsInvisible(before, now, 0, now);
      forall token, t: nat | t >= now ensures Contains(entries, token, t) <==> Contains(before, token, t) {
        EvictionIsInvisible(before, now, token, t);
      }
    }

    /** True exactly on first use; a refused write is rolled back. */
    method CheckAndInsert(token: Token, expiry: nat, now: nat, logged: bool) returns (accepted: bool)
      modifies this
      ensures accepted == Accepts(old(entries), maxEntries, token, now, logged)
      ensures entries == AfterInsert(old(entries), maxEntries, token, expiry, now, logged)
    {
      if token in entries {
        return false;
      }
      if |entries| >= maxEntries {
        EvictExpired(now);
        if |entries| >= maxEntries {
          return false;
        }
      }
      ghost var room := entries;
      entries := entries[token := expiry];
      if !logged {
        entries := entries - {token};
        assert entries == room;
        return false;
      }
      accepted := true;
    }
  }
}
