/**
 * One pure transition per method of `AlbumsService`: given the state before
 * the call (and, for `nanoid` and the cache backend, what the environment
 * answers), the result the method returns or throws and the state after it.
 * The class in module Service is proved to behave exactly like these.
 */
module Operations {
  import opened Store

  const AlbumNotFound := "Album tidak ditemukan"
  const EditNotFound := "Gagal memperbarui album. Id tidak ditemukan"
  const DeleteNotFound := "Album gagal dihapus. Id tidak ditemukan"
  const CoverNotFound := "Gagal memperbarui cover. Id tidak ditemukan"
  const AlreadyLiked := "Gagal menyukai album. Anda sudah menyukai album ini."
  const LikeNotFound := "Gagal membatalkan like. Like tidak ditemukan"

  /**
   * What a method throws: the service's own `InvariantError` and
   * `NotFoundError`, an error from a cache command outside the read path's
   * try/catch, and an error raised by the database (a primary-key clash).
   */
  datatype Error =
    | InvariantError(message: string)
    | NotFoundError(message: string)
    | CacheError
    | DatabaseError

  datatype Result<T> = Ok(value: T) | Err(error: Error)

  /** What a call returns and the state it leaves behind. */
  datatype Step<T> = Step(result: Result<T>, after: State)

  /** An album row joined with its songs, as `getAlbumById` returns it. */
  datatype AlbumView = AlbumView(id: AlbumId, name: string, year: int, cover: Option<string>, songs: seq<SongSummary>)

  /** The `{ count, isCache }` object `getLikesCount` returns. */
  datatype LikesCount = LikesCount(count: int, isCache: bool)

  /** How a cache GET ends: a value, no value, or an exception. */
  datatype CacheRead = Hit(value: int) | Miss | ReadError

  function ReadCache(cache: map<string, int>, key: string, throws: bool): (c: CacheRead)
    ensures c.Hit? <==> !throws && key in cache
    ensures c.Hit? ==> c.value == cache[key]
    ensures c.ReadError? <==> throws
  {
    if throws then ReadError
    else if key in cache then Hit(cache[key])
    else Miss
  }

  /** `addAlbum`: inserts a new row under `album-<nanoid>` with no cover. */
  function AddAlbum(s: State, name: string, year: int, suffix: Nanoid): (t: Step<AlbumId>)
    ensures t.result.Ok? <==> AlbumIdFor(suffix) !in s.albums
    ensures t.result.Ok? ==>
      t.result.value == AlbumIdFor(suffix) &&
      t.after == s.(albums := s.albums[AlbumIdFor(suffix) := Album(name, year, None)])
    ensures t.result.Err? ==> t.result.error == DatabaseError && t.after == s
  {
    var id := AlbumIdFor(suffix);
    if id in s.albums then Step(Err(DatabaseError), s)
    else Step(Ok(id), s.(albums := s.albums[id := Album(name, year, None)]))
  }

  /** `getAlbumById`: the album row with the songs that reference it. */
  function GetAlbumById(s: State, id: AlbumId): (r: Result<AlbumView>)
    ensures r.Ok? <==> id in s.albums
    ensures r.Err? ==> r.error == NotFoundError(AlbumNotFound)
    ensures r.Ok? ==>
      var album := s.albums[id];
      r.value.id == id && r.value.name == album.name && r.value.year == album.year &&
      r.value.cover == album.cover &&
      (forall row :: row in s.songs && row.albumId == Some(id) ==> Summary(row) in r.value.songs) &&
      (forall x :: x in r.value.songs ==> exists row :: row in s.songs && row.albumId == Some(id) && Summary(row) == x) &&
      (forall x :: multiset(r.value.songs)[x] == |RowsWith(s.songs, id, x)|)
  {
    if id !in s.albums then Err(NotFoundError(AlbumNotFound))
    else
      var album := s.albums[id];
      Ok(AlbumView(id, album.name, album.year, album.cover, SongsOf(s.songs, id)))
  }

  /** `editAlbumById`: replaces name and year of an existing album. */
  function EditAlbumById(s: State, id: AlbumId, name: string, year: int): (t: Step<()>)
    ensures t.result.Ok? <==> id in s.albums
    ensures t.result.Ok? ==>
      t.after == s.(albums := s.albums[id := Album(name, year, s.albums[id].cover)])
    ensures t.result.Err? ==> t.result.error == NotFoundError(EditNotFound) && t.after == s
  {
    if id !in s.albums then Step(Err(NotFoundError(EditNotFound)), s)
    else Step(Ok(()), s.(albums := s.albums[id := s.albums[id].(name := name, year := year)]))
  }

  /**
   * `deleteAlbumById`: removes the row; its likes go with it (the foreign
   * key cascades). The cache is not touched.
   */
  function DeleteAlbumById(s: State, id: AlbumId): (t: Step<()>)
    ensures t.result.Ok? <==> id in s.albums
    ensures t.result.Ok? ==>
      t.after.albums == s.albums - {id} && t.after.songs == s.songs &&
      t.after.cache == s.cache &&
      (forall l :: l in t.after.likes <==> l in s.likes && s.likes[l].albumId != id) &&
      (forall l :: l in t.after.likes ==> t.after.likes[l] == s.likes[l])
    ensures t.result.Err? ==> t.result.error == NotFoundError(DeleteNotFound) && t.after == s
  {
    if id !in s.albums then Step(Err(NotFoundError(DeleteNotFound)), s)
    else Step(Ok(()), s.(albums := s.albums - {id}, likes := WithoutAlbumLikes(s.likes, id)))
  }

  /** `addCoverAlbumById`: sets the cover URL of an existing album. */
  function AddCoverAlbumById(s: State, id: AlbumId, coverUrl: string): (t: Step<()>)
    ensures t.result.Ok? <==> id in s.albums
    ensures t.result.Ok? ==>
      t.after == s.(albums := s.albums[id := Album(s.albums[id].name, s.albums[id].year, Some(coverUrl))])
    ensures t.result.Err? ==> t.result.error == NotFoundError(CoverNotFound) && t.after == s
  {
    if id !in s.albums then Step(Err(NotFoundError(CoverNotFound)), s)
    else Step(Ok(()), s.(albums := s.albums[id := s.albums[id].(cover := Some(coverUrl))]))
  }

  /**
   * `addLikeAlbum`: album must exist, the pair must not be liked yet; the
   * record is inserted under `like-<nanoid>` and then the album's cache key
   * is deleted. `delThrows` is whether that DEL raises.
   */
  function AddLikeAlbum(s: State, userId: UserId, albumId: AlbumId, suffix: Nanoid, delThrows: bool): (t: Step<()>)
    ensures t.result == Err(NotFoundError(AlbumNotFound)) <==> albumId !in s.albums
    ensures t.result == Err(InvariantError(AlreadyLiked)) <==> albumId in s.albums && HasLike(s.likes, userId, albumId)
    ensures t.result.Ok? <==>
      albumId in s.albums && !HasLike(s.likes, userId, albumId) && LikeIdFor(suffix) !in s.likes && !delThrows
    ensures t.result == Err(CacheError) <==>
      albumId in s.albums && !HasLike(s.likes, userId, albumId) && LikeIdFor(suffix) !in s.likes && delThrows
    ensures t.result == Err(DatabaseError) <==>
      albumId in s.albums && !HasLike(s.likes, userId, albumId) && LikeIdFor(suffix) in s.likes
    ensures t.result.Ok? || t.result == Err(CacheError) ==>
      LikeIdFor(suffix) !in s.likes &&
      t.after.likes == s.likes[LikeIdFor(suffix) := Like(userId, albumId)] &&
      t.after.albums == s.albums && t.after.songs == s.songs
    ensures t.result.Ok? ==> t.after.cache == s.cache - {CacheKey(albumId)}
    ensures t.result == Err(CacheError) ==> delThrows && t.after.cache == s.cache
    ensures !t.result.Ok? && t.result != Err(CacheError) ==> t.after == s
  {
    if albumId !in s.albums then Step(Err(NotFoundError(AlbumNotFound)), s)
    else if HasLike(s.likes, userId, albumId) then Step(Err(InvariantError(AlreadyLiked)), s)
    else if LikeIdFor(suffix) in s.likes then Step(Err(DatabaseError), s)
    else
      var inserted := s.(likes := s.likes[LikeIdFor(suffix) := Like(userId, albumId)]);
      if delThrows then Step(Err(CacheError), inserted)
      else Step(Ok(()), inserted.(cache := inserted.cache - {CacheKey(albumId)}))
  }

  /**
   * `deleteLikeAlbum`: deletes the pair's record, fails if there was none,
   * then deletes the album's cache key. `delThrows` is whether that DEL raises.
   */
  function DeleteLikeAlbum(s: State, userId: UserId, albumId: AlbumId, delThrows: bool): (t: Step<()>)
    ensures t.result.Ok? <==> HasLike(s.likes, userId, albumId) && !delThrows
    ensures t.result == Err(NotFoundError(LikeNotFound)) <==> !HasLike(s.likes, userId, albumId)
    ensures t.result == Err(CacheError) <==> HasLike(s.likes, userId, albumId) && delThrows
    ensures t.result == Err(NotFoundError(LikeNotFound)) ==> t.after == s
    ensures t.result.Ok? || t.result == Err(CacheError) ==>
      !HasLike(t.after.likes, userId, albumId) &&
      (forall l :: l in t.after.likes <==> l in s.likes && s.likes[l] != Like(userId, albumId)) &&
      (forall l :: l in t.after.likes ==> t.after.likes[l] == s.likes[l]) &&
      t.after.albums == s.albums && t.after.songs == s.songs
    ensures t.result.Ok? ==> t.after.cache == s.cache - {CacheKey(albumId)}
    ensures t.result == Err(CacheError) ==> delThrows && t.after.cache == s.cache
  {
    if !HasLike(s.likes, userId, albumId) then Step(Err(NotFoundError(LikeNotFound)), s)
    else
      var removed := s.(likes := WithoutLike(s.likes, userId, albumId));
      assert LikesBy(removed.likes, userId, albumId) == {};
      if delThrows then Step(Err(CacheError), removed)
      else Step(Ok(()), removed.(cache := removed.cache - {CacheKey(albumId)}))
  }

  /**
   * `getLikesCount`: a cache hit is returned as it is; a miss or a failed
   * GET falls through to the store, which checks the album, counts its
   * likes and writes the count back. `setThrows` is whether that SET raises.
   */
  function GetLikesCount(s: State, albumId: AlbumId, getThrows: bool, setThrows: bool): (t: Step<LikesCount>)
    // a hit is answered before the album is looked up, and changes nothing
    ensures !getThrows && CacheKey(albumId) in s.cache ==>
      t.result == Ok(LikesCount(s.cache[CacheKey(albumId)], true)) && t.after == s
    // otherwise the store is the source
    ensures getThrows || CacheKey(albumId) !in s.cache ==>
      (albumId !in s.albums ==> t.result == Err(NotFoundError(AlbumNotFound)) && t.after == s) &&
      (albumId in s.albums && setThrows ==> t.result == Err(CacheError) && t.after == s) &&
      (albumId in s.albums && !setThrows ==>
        t.result == Ok(LikesCount(LikeCount(s.likes, albumId), false)) &&
        t.after == s.(cache := s.cache[CacheKey(albumId) := LikeCount(s.likes, albumId)]))
    // an error from the GET itself never reaches the caller
    ensures t.result == Err(CacheError) ==> setThrows
  {
    match ReadCache(s.cache, CacheKey(albumId), getThrows)
    case Hit(v) => Step(Ok(LikesCount(v, true)), s)
    case _ =>
      if albumId !in s.albums then Step(Err(NotFoundError(AlbumNotFound)), s)
      else
        var count := LikeCount(s.likes, albumId);
        if setThrows then Step(Err(CacheError), s)
        else Step(Ok(LikesCount(count, false)), s.(cache := s.cache[CacheKey(albumId) := count]))
  }
}
