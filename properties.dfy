/**
 * What the transitions of module Operations promise together: the store's
 * constraints and the cache's agreement with the store are kept, a like or
 * unlike moves the count by one, and where the service does not keep the
 * cache in step (album deletion, a DEL that raises) a concrete run shows it.
 */
module Properties {
  import opened Store
  import opened Operations

  // Album rows: read after write

  lemma AddAlbumThenGet(s: State, name: string, year: int, suffix: Nanoid)
    requires AddAlbum(s, name, year, suffix).result.Ok?
    ensures var t := AddAlbum(s, name, year, suffix);
      var view := GetAlbumById(t.after, t.result.value);
      view.Ok? && view.value.name == name && view.value.year == year && view.value.cover == None &&
      t.after.albums.Keys == s.albums.Keys + {t.result.value}
  {
  }

  lemma EditAlbumThenGet(s: State, id: AlbumId, name: string, year: int)
    requires id in s.albums
    ensures var t := EditAlbumById(s, id, name, year);
      var view := GetAlbumById(t.after, id);
      view.Ok? && view.value.name == name && view.value.year == year &&
      view.value.cover == s.albums[id].cover &&
      (forall other :: other != id && other in s.albums ==> GetAlbumById(t.after, other) == GetAlbumById(s, other))
  {
  }

  lemma AddCoverThenGet(s: State, id: AlbumId, coverUrl: string)
    requires id in s.albums
    ensures var t := AddCoverAlbumById(s, id, coverUrl);
      var view := GetAlbumById(t.after, id);
      view.Ok? && view.value.cover == Some(coverUrl) &&
      view.value.name == s.albums[id].name && view.value.year == s.albums[id].year &&
      (forall other :: other != id && other in s.albums ==> GetAlbumById(t.after, other) == GetAlbumById(s, other))
  {
  }

  /** After a deletion the album is gone, and so are its likes; other albums keep theirs. */
  lemma DeleteAlbumThenGet(s: State, id: AlbumId, b: AlbumId)
    requires id in s.albums
    ensures var t := DeleteAlbumById(s, id);
      GetAlbumById(t.after, id) == Err(NotFoundError(AlbumNotFound)) &&
      LikeCount(t.after.likes, id) == 0 &&
      (b != id ==> LikeCount(t.after.likes, b) == LikeCount(s.likes, b))
  {
    LikeCountCascade(s.likes, id, b);
  }

  // The store's own constraints are kept by every operation

  lemma AddAlbumKeepsInvariants(s: State, name: string, year: int, suffix: Nanoid)
    requires Valid(s)
    ensures var t := AddAlbum(s, name, year, suffix);
      Valid(t.after) && (CacheConsistent(s) ==> CacheConsistent(t.after))
  {
    var t := AddAlbum(s, name, year, suffix);
    if t.result.Ok? && CacheConsistent(s) {
      // the new album has no likes yet, so a cached count for its key is already right
      assert LikeCount(s.likes, AlbumIdFor(suffix)) == 0;
    }
  }

  lemma EditAlbumKeepsInvariants(s: State, id: AlbumId, name: string, year: int)
    requires Valid(s)
    ensures var t := EditAlbumById(s, id, name, year);
      Valid(t.after) && (CacheConsistent(s) ==> CacheConsistent(t.after))
  {
  }

  lemma AddCoverKeepsInvariants(s: State, id: AlbumId, coverUrl: string)
    requires Valid(s)
    ensures var t := AddCoverAlbumById(s, id, coverUrl);
      Valid(t.after) && (CacheConsistent(s) ==> CacheConsistent(t.after))
  {
  }

  /** Deletion keeps the store's constraints; the cache is another matter (see below). */
  lemma DeleteAlbumKeepsStoreInvariants(s: State, id: AlbumId)
    requires Valid(s)
    ensures Valid(DeleteAlbumById(s, id).after)
  {
  }

  /** A successful like adds exactly one record, for that pair, and moves only that album's count. */
  lemma AddLikeCounts(s: State, userId: UserId, albumId: AlbumId, suffix: Nanoid, delThrows: bool, b: AlbumId)
    requires AddLikeAlbum(s, userId, albumId, suffix, delThrows).result.Ok?
    ensures var t := AddLikeAlbum(s, userId, albumId, suffix, delThrows);
      LikeCount(t.after.likes, b) == LikeCount(s.likes, b) + (if b == albumId then 1 else 0) &&
      LikesBy(t.after.likes, userId, albumId) == {LikeIdFor(suffix)}
  {
    var t := AddLikeAlbum(s, userId, albumId, suffix, delThrows);
    LikeCountInsert(s.likes, LikeIdFor(suffix), Like(userId, albumId), b);
    assert LikesBy(s.likes, userId, albumId) == {};
  }

  /** A like, even one whose DEL raises, keeps the store's constraints. */
  lemma AddLikeKeepsStoreInvariants(s: State, userId: UserId, albumId: AlbumId, suffix: Nanoid, delThrows: bool)
    requires Valid(s)
    ensures Valid(AddLikeAlbum(s, userId, albumId, suffix, delThrows).after)
  {
    var t := AddLikeAlbum(s, userId, albumId, suffix, delThrows);
    if t.result.Ok? || t.result == Err(CacheError) {
      forall i | i in s.likes
        ensures s.likes[i] != Like(userId, albumId)
      {
        assert i !in LikesBy(s.likes, userId, albumId);
      }
    }
  }

  /** A like whose DEL goes through keeps every cached count equal to the store's. */
  lemma AddLikeKeepsCacheConsistent(s: State, userId: UserId, albumId: AlbumId, suffix: Nanoid)
    requires CacheConsistent(s)
    ensures CacheConsistent(AddLikeAlbum(s, userId, albumId, suffix, false).after)
  {
    var t := AddLikeAlbum(s, userId, albumId, suffix, false);
    if t.result.Ok? {
      forall b | CacheKey(b) in t.after.cache
        ensures t.after.cache[CacheKey(b)] == LikeCount(t.after.likes, b)
      {
        assert b != albumId;
        AddLikeCounts(s, userId, albumId, suffix, false, b);
      }
    }
  }

  /**
   * A successful unlike removes exactly one record under the unique
   * constraint; the store's constraints are kept and, when its DEL goes
   * through, so is the cache's agreement.
   */
  lemma DeleteLikeKeepsInvariants(s: State, userId: UserId, albumId: AlbumId, delThrows: bool)
    requires Valid(s)
    ensures var t := DeleteLikeAlbum(s, userId, albumId, delThrows);
      Valid(t.after) &&
      (CacheConsistent(s) && !delThrows ==> CacheConsistent(t.after)) &&
      (t.result.Ok? ==> LikeCount(t.after.likes, albumId) == LikeCount(s.likes, albumId) - 1)
  {
    var t := DeleteLikeAlbum(s, userId, albumId, delThrows);
    if t.result.Ok? || t.result == Err(CacheError) {
      AtMostOneLike(s.likes, userId, albumId);
      forall b {
        LikeCountRemove(s.likes, userId, albumId, b);
      }
      if CacheConsistent(s) && !delThrows {
        forall b | CacheKey(b) in t.after.cache
          ensures t.after.cache[CacheKey(b)] == LikeCount(t.after.likes, b)
        {
          assert b != albumId;
        }
      }
    }
  }

  /** Reading the count keeps every invariant, whichever cache command fails. */
  lemma GetLikesCountKeepsInvariants(s: State, albumId: AlbumId, getThrows: bool, setThrows: bool)
    requires Valid(s) && CacheConsistent(s)
    ensures var t := GetLikesCount(s, albumId, getThrows, setThrows);
      Valid(t.after) && CacheConsistent(t.after)
  {
    var t := GetLikesCount(s, albumId, getThrows, setThrows);
    forall b | CacheKey(b) in t.after.cache
      ensures t.after.cache[CacheKey(b)] == LikeCount(t.after.likes, b)
    {
      if CacheKey(b) == CacheKey(albumId) {
        CacheKeyInjective(b, albumId);
      }
    }
  }

  /** Expiry only ever removes keys, so it cannot make the cache disagree with the store. */
  lemma ExpiryKeepsCacheConsistent(s: State, key: string)
    requires CacheConsistent(s)
    ensures CacheConsistent(s.(cache := s.cache - {key}))
  {
  }

  // What the caller sees

  /**
   * While the cache agrees with the store, every count returned is the
   * store's count, whether it came from the cache or not.
   */
  lemma CountIsStoreCount(s: State, albumId: AlbumId, getThrows: bool, setThrows: bool)
    requires CacheConsistent(s)
    requires GetLikesCount(s, albumId, getThrows, setThrows).result.Ok?
    ensures GetLikesCount(s, albumId, getThrows, setThrows).result.value.count == LikeCount(s.likes, albumId)
  {
  }

  /** A like followed by a count reports the count before the like plus one. */
  lemma LikeThenCount(s: State, userId: UserId, albumId: AlbumId, suffix: Nanoid, getThrows: bool)
    requires Valid(s) && CacheConsistent(s)
    requires AddLikeAlbum(s, userId, albumId, suffix, false).result.Ok?
    ensures var s1 := AddLikeAlbum(s, userId, albumId, suffix, false).after;
      GetLikesCount(s1, albumId, getThrows, false).result
        == Ok(LikesCount(LikeCount(s.likes, albumId) + 1, false))
  {
    AddLikeCounts(s, userId, albumId, suffix, false, albumId);
    AddLikeKeepsCacheConsistent(s, userId, albumId, suffix);
  }

  /** An unlike followed by a count reports the count before the unlike minus one. */
  lemma UnlikeThenCount(s: State, userId: UserId, albumId: AlbumId, getThrows: bool)
    requires Valid(s) && CacheConsistent(s)
    requires DeleteLikeAlbum(s, userId, albumId, false).result.Ok?
    ensures var s1 := DeleteLikeAlbum(s, userId, albumId, false).after;
      GetLikesCount(s1, albumId, getThrows, false).result
        == Ok(LikesCount(LikeCount(s.likes, albumId) - 1, false))
  {
    // the liked album exists: the foreign key admits no like for a missing one
    var id :| id in s.likes && s.likes[id] == Like(userId, albumId);
    assert albumId in s.albums;
    DeleteLikeKeepsInvariants(s, userId, albumId, false);
  }

  /**
   * Count, like, count again: the second count is the first plus one,
   * whichever source each count came from.
   */
  lemma CountLikeCount(s: State, userId: UserId, albumId: AlbumId, suffix: Nanoid,
                       getThrows1: bool, setThrows1: bool, getThrows2: bool, setThrows2: bool)
    requires Valid(s) && CacheConsistent(s)
    requires GetLikesCount(s, albumId, getThrows1, setThrows1).result.Ok?
    requires AddLikeAlbum(GetLikesCount(s, albumId, getThrows1, setThrows1).after, userId, albumId, suffix, false).result.Ok?
    ensures
      var t1 := GetLikesCount(s, albumId, getThrows1, setThrows1);
      var t2 := AddLikeAlbum(t1.after, userId, albumId, suffix, false);
      var t3 := GetLikesCount(t2.after, albumId, getThrows2, setThrows2);
      t3.result.Ok? ==> t3.result.value.count == t1.result.value.count + 1
  {
    var t1 := GetLikesCount(s, albumId, getThrows1, setThrows1);
    var t2 := AddLikeAlbum(t1.after, userId, albumId, suffix, false);
    CountIsStoreCount(s, albumId, getThrows1, setThrows1);
    GetLikesCountKeepsInvariants(s, albumId, getThrows1, setThrows1);
    AddLikeCounts(t1.after, userId, albumId, suffix, false, albumId);
    AddLikeKeepsCacheConsistent(t1.after, userId, albumId, suffix);
  }

  /**
   * For an album nobody has liked, a count on a cold cache comes from the
   * store and is 0; the next count, if its GET succeeds, is a cache hit of 0.
   */
  lemma ColdThenWarm(s: State, albumId: AlbumId, getThrows: bool)
    requires albumId in s.albums && LikeCount(s.likes, albumId) == 0
    requires CacheKey(albumId) !in s.cache
    ensures var t1 := GetLikesCount(s, albumId, getThrows, false);
      t1.result == Ok(LikesCount(0, false)) &&
      GetLikesCount(t1.after, albumId, false, false).result == Ok(LikesCount(0, true))
  {
  }

  /** Liking twice: the second like is refused and exactly one record remains. */
  lemma LikeTwice(s: State, userId: UserId, albumId: AlbumId, suffix1: Nanoid, suffix2: Nanoid, delThrows2: bool)
    requires Valid(s)
    requires AddLikeAlbum(s, userId, albumId, suffix1, false).result.Ok?
    ensures var s1 := AddLikeAlbum(s, userId, albumId, suffix1, false).after;
      var t2 := AddLikeAlbum(s1, userId, albumId, suffix2, delThrows2);
      t2.result == Err(InvariantError(AlreadyLiked)) && t2.after == s1 &&
      |LikesBy(t2.after.likes, userId, albumId)| == 1
  {
    AddLikeCounts(s, userId, albumId, suffix1, false, albumId);
  }

  // Where the cache does not follow the store

  /**
   * `deleteAlbumById` leaves `likes:<id>` in the cache: after deleting a
   * liked album whose count was cached, a count is still answered from the
   * cache, with the old number, for an album that no longer exists.
   */
  lemma DeleteAlbumLeavesStaleCount()
    ensures
      var s := State(map["album-a" := Album("A", 2020, None)], [],
                     map["like-1" := Like("user-1", "album-a")],
                     map[CacheKey("album-a") := 1]);
      var t := DeleteAlbumById(s, "album-a");
      Valid(s) && CacheConsistent(s) && t.result.Ok? &&
      !CacheConsistent(t.after) && "album-a" !in t.after.albums &&
      GetLikesCount(t.after, "album-a", false, false).result == Ok(LikesCount(1, true))
  {
    var s := State(map["album-a" := Album("A", 2020, None)], [],
                   map["like-1" := Like("user-1", "album-a")],
                   map[CacheKey("album-a") := 1]);
    assert LikesOf(s.likes, "album-a") == {"like-1"};
    forall a | CacheKey(a) in s.cache
      ensures s.cache[CacheKey(a)] == LikeCount(s.likes, a)
    {
      CacheKeyInjective(a, "album-a");
    }
    var t := DeleteAlbumById(s, "album-a");
    LikeCountCascade(s.likes, "album-a", "album-a");
    assert t.after.cache[CacheKey("album-a")] != LikeCount(t.after.likes, "album-a");
  }

  /**
   * A like whose cache DEL raises has already been inserted: the caller
   * gets an error, the cached count stays at its old value and the next
   * count is a hit with that value.
   */
  lemma FailedInvalidationLeavesStaleCount()
    ensures
      var s := State(map["album-a" := Album("A", 2020, None)], [], map[], map[CacheKey("album-a") := 0]);
      var t := AddLikeAlbum(s, "user-1", "album-a", "0123456789abcdef", true);
      Valid(s) && CacheConsistent(s) && t.result == Err(CacheError) &&
      LikeCount(t.after.likes, "album-a") == 1 && !CacheConsistent(t.after) &&
      GetLikesCount(t.after, "album-a", false, false).result == Ok(LikesCount(0, true))
  {
    var s := State(map["album-a" := Album("A", 2020, None)], [], map[], map[CacheKey("album-a") := 0]);
    assert LikesOf(s.likes, "album-a") == {};
    forall a | CacheKey(a) in s.cache
      ensures s.cache[CacheKey(a)] == LikeCount(s.likes, a)
    {
      CacheKeyInjective(a, "album-a");
    }
    var t := AddLikeAlbum(s, "user-1", "album-a", "0123456789abcdef", true);
    assert LikesOf(t.after.likes, "album-a") == {LikeIdFor("0123456789abcdef")};
  }
}
