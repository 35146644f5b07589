/**
 * RedisService: create, read, update and delete of user names in the one
 * Redis hash named "userCache", reached through Redisson's RMap.
 *
 * The hash is an abstract finite map from user id to user name.  Its
 * map-wide time to live is a ghost field holding the expiry last set, in
 * minutes; no clock is modelled, so an entry never actually expires here.
 * Redis keeps no empty hash: removing the last entry deletes the key and
 * its expiry with it, and EXPIRE on a key that does not exist does nothing.
 */
module RedisService {
  import opened Wrappers

  /** The expiry createUser asks for. */
  const ExpiryMinutes: nat := 10

  /** RMap.get: the stored name, or `None` for Java's `null` when the id is absent. */
  function Lookup(entries: map<string, string>, userId: string): (r: Option<string>)
    ensures r.Some? <==> userId in entries
    ensures r.Some? ==> r.value == entries[userId]
  {
    if userId in entries then Some(entries[userId]) else None
  }

  /**
   * RMap.expire on the hash: it sets the expiry when the hash exists, that
   * is when it has an entry, and does nothing otherwise.
   */
  function Expire(entries: map<string, string>, expiry: Option<nat>, minutes: nat): (r: Option<nat>)
    ensures entries != map[] ==> r == Some(minutes)
    ensures entries == map[] ==> r == expiry
  {
    if entries == map[] then expiry else Some(minutes)
  }

  /** The "userCache" hash as the service sees it. */
  class UserCache {
    var entries: map<string, string>
    ghost var expiryMinutes: Option<nat>

    /** A hash with no entries does not exist in Redis, so it has no expiry. */
    ghost predicate Valid()
      reads this
    {
      entries == map[] ==> expiryMinutes == None
    }

    constructor ()
      ensures Valid() && entries == map[] && expiryMinutes == None
    {
      entries := map[];
      expiryMinutes := None;
    }

    /**
     * createUser, as written: the expiry is requested first and the entry
     * is stored second, overwriting any earlier name for the id.
     */
    method CreateUser(userId: string, userName: string)
      requires Valid()
      modifies this
      ensures Valid()
      ensures entries == old(entries)[userId := userName]
      ensures expiryMinutes == Expire(old(entries), old(expiryMinutes), ExpiryMinutes)
    {
      expiryMinutes := Expire(entries, expiryMinutes, ExpiryMinutes);
      entries := entries[userId := userName];
    }

    /**
     * createUser with the two calls the other way round: the entry is
     * stored first, so the hash exists when the expiry is requested.
     */
    method CreateUserExpiring(userId: string, userName: string)
      requires Valid()
      modifies this
      ensures Valid()
      ensures entries == old(entries)[userId := userName]
      ensures expiryMinutes == Some(ExpiryMinutes)
    {
      StoreThenExpire(entries, expiryMinutes, userId, userName);
      entries := entries[userId := userName];
      expiryMinutes := Expire(entries, expiryMinutes, ExpiryMinutes);
    }

    /** getUser: the stored name exactly when the id is present; nothing changes. */
    method GetUser(userId: string) returns (userName: Option<string>)
      ensures userName.Some? <==> userId in entries
      ensures userName.Some? ==> userName.value == entries[userId]
    {
      userName := Lookup(entries, userId);
    }

    /**
     * updateUser: a present id gets the new name; an absent id is not
     * inserted.  Setting a field of an existing hash keeps its expiry.
     */
    method UpdateUser(userId: string, newUserName: string)
      requires Valid()
      modifies this
      ensures Valid()
      ensures userId in old(entries) ==> entries == old(entries)[userId := newUserName]
      ensures userId !in old(entries) ==> entries == old(entries)
      ensures expiryMinutes == old(expiryMinutes)
    {
      if userId in entries {
        entries := entries[userId := newUserName];
      }
    }

    /**
     * deleteUser: the id is removed and every other entry stays; removing
     * an absent id changes nothing, and removing the last entry deletes
     * the hash together with its expiry.
     */
    method DeleteUser(userId: string)
      requires Valid()
      modifies this
      ensures Valid()
      ensures entries == old(entries) - {userId}
      ensures expiryMinutes == if entries == map[] then None else old(expiryMinutes)
    {
      entries := entries - {userId};
      if entries == map[] {
        expiryMinutes := None;
      }
    }
  }

  /** A name just stored is the one read back, and every other id reads as before. */
  lemma ReadAfterStore(entries: map<string, string>, userId: string, userName: string, other: string)
    ensures Lookup(entries[userId := userName], userId) == Some(userName)
    ensures other != userId ==> Lookup(entries[userId := userName], other) == Lookup(entries, other)
  {
  }

  /** After a removal the id reads as absent, and every other id reads as before. */
  lemma ReadAfterRemove(entries: map<string, string>, userId: string, other: string)
    ensures Lookup(entries - {userId}, userId) == None
    ensures other != userId ==> Lookup(entries - {userId}, other) == Lookup(entries, other)
  {
  }

  /**
   * The first createUser on an empty cache stores its entry with no
   * expiry: EXPIRE runs while the hash does not exist yet.
   */
  lemma FirstCreateNeverExpires(userId: string, userName: string)
    ensures map[][userId := userName] != map[]
    ensures Expire(map[], None, ExpiryMinutes) == None
  {
    assert userId in map[][userId := userName];
  }

  /** Storing before requesting the expiry always leaves the hash with the expiry. */
  lemma StoreThenExpire(entries: map<string, string>, expiry: Option<nat>, userId: string, userName: string)
    ensures Expire(entries[userId := userName], expiry, ExpiryMinutes) == Some(ExpiryMinutes)
  {
    assert userId in entries[userId := userName];
  }

  /**
   * The create, read, delete and update sequence on a fresh cache, with
   * createUser as written: the name is read back but the hash has no
   * expiry, it is absent after the delete, and an update of the absent id
   * does not bring it back.
   */
  method CrudScenario() returns (created: Option<string>, ghost expiry: Option<nat>, deleted: Option<string>, updated: Option<string>)
    ensures created == Some("Alice") && expiry == None
    ensures deleted == None && updated == None
  {
    var cache := new UserCache();
    cache.CreateUser("u1", "Alice");
    expiry := cache.expiryMinutes;
    created := cache.GetUser("u1");
    cache.DeleteUser("u1");
    deleted := cache.GetUser("u1");
    cache.UpdateUser("u1", "Bob");
    updated := cache.GetUser("u1");
  }

  /** The same first create with the corrected order: the name is read back and the hash expires in ten minutes. */
  method CorrectedCreateScenario() returns (created: Option<string>, ghost expiry: Option<nat>)
    ensures created == Some("Alice") && expiry == Some(ExpiryMinutes)
  {
    var cache := new UserCache();
    cache.CreateUserExpiring("u1", "Alice");
    expiry := cache.expiryMinutes;
    created := cache.GetUser("u1");
  }

}
