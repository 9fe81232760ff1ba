/**
 * `AlbumsService` as a class over the tables and the cache it changes in
 * place. Each method runs the steps of the JavaScript `AlbumsService` in
 * order (look up, check, write, touch the cache, stop early with an error)
 * and is proved to end exactly as the matching transition of module
 * Operations.
 */
module Service {
  import opened Store
  import opened Operations

  class AlbumsService {
    var albums: map<AlbumId, Album>
    var songs: seq<SongRow>
    var likes: map<LikeId, Like>
    var cache: map<string, int>

    /** The tables and the cache as one value. */
    function Current(): State
      reads this
    {
      State(albums, songs, likes, cache)
    }

    /** The service over an existing database and cache. */
    constructor (initial: State)
      ensures Current() == initial
    {
      albums, songs, likes, cache := initial.albums, initial.songs, initial.likes, initial.cache;
    }

    method AddAlbum(name: string, year: int, suffix: Nanoid) returns (r: Result<AlbumId>)
      modifies this
      ensures Step(r, Current()) == Operations.AddAlbum(old(Current()), name, year, suffix)
    {
      var id := AlbumIdFor(suffix);
      if id in albums {
        // the INSERT violates the primary key
        return Err(DatabaseError);
      }
      albums := albums[id := Album(name, year, None)];
      return Ok(id);
    }

    method GetAlbumById(id: AlbumId) returns (r: Result<AlbumView>)
      ensures r == Operations.GetAlbumById(Current(), id)
      ensures r.Ok? <==> id in albums
    {
      if id !in albums {
        return Err(NotFoundError(AlbumNotFound));
      }
      var album := albums[id];
      var rows := SongsOf(songs, id);
      return Ok(AlbumView(id, album.name, album.year, album.cover, rows));
    }

    method EditAlbumById(id: AlbumId, name: string, year: int) returns (r: Result<()>)
      modifies this
      ensures Step(r, Current()) == Operations.EditAlbumById(old(Current()), id, name, year)
    {
      if id !in albums {
        return Err(NotFoundError(EditNotFound));
      }
      albums := albums[id := albums[id].(name := name, year := year)];
      return Ok(());
    }

    method DeleteAlbumById(id: AlbumId) returns (r: Result<()>)
      modifies this
      ensures Step(r, Current()) == Operations.DeleteAlbumById(old(Current()), id)
    {
      if id !in albums {
        return Err(NotFoundError(DeleteNotFound));
      }
      albums := albums - {id};
      likes := WithoutAlbumLikes(likes, id);
      return Ok(());
    }

    method AddCoverAlbumById(id: AlbumId, coverUrl: string) returns (r: Result<()>)
      modifies this
      ensures Step(r, Current()) == Operations.AddCoverAlbumById(old(Current()), id, coverUrl)
    {
      if id !in albums {
        return Err(NotFoundError(CoverNotFound));
      }
      albums := albums[id := albums[id].(cover := Some(coverUrl))];
      return Ok(());
    }

    method AddLikeAlbum(userId: UserId, albumId: AlbumId, suffix: Nanoid, delThrows: bool) returns (r: Result<()>)
      modifies this
      ensures Step(r, Current()) == Operations.AddLikeAlbum(old(Current()), userId, albumId, suffix, delThrows)
    {
      var album := GetAlbumById(albumId);
      if album.Err? {
        return Err(album.error);
      }
      var existing := LikesBy(likes, userId, albumId);
      if |existing| > 0 {
        return Err(InvariantError(AlreadyLiked));
      }
      var id := LikeIdFor(suffix);
      if id in likes {
        // the INSERT violates the primary key
        return Err(DatabaseError);
      }
      likes := likes[id := Like(userId, albumId)];
      if delThrows {
        return Err(CacheError);
      }
      cache := cache - {CacheKey(albumId)};
      return Ok(());
    }

    method DeleteLikeAlbum(userId: UserId, albumId: AlbumId, delThrows: bool) returns (r: Result<()>)
      modifies this
      ensures Step(r, Current()) == Operations.DeleteLikeAlbum(old(Current()), userId, albumId, delThrows)
    {
      var deleted := LikesBy(likes, userId, albumId);
      likes := WithoutLike(likes, userId, albumId);
      if |deleted| == 0 {
        WithoutLikeWhenAbsent(old(likes), userId, albumId);
        return Err(NotFoundError(LikeNotFound));
      }
      if delThrows {
        return Err(CacheError);
      }
      cache := cache - {CacheKey(albumId)};
      return Ok(());
    }

    method GetLikesCount(albumId: AlbumId, getThrows: bool, setThrows: bool) returns (r: Result<LikesCount>)
      modifies this
      ensures Step(r, Current()) == Operations.GetLikesCount(old(Current()), albumId, getThrows, setThrows)
    {
      var read := ReadCache(cache, CacheKey(albumId), getThrows);
      if read.Hit? {
        return Ok(LikesCount(read.value, true));
      }
      // a miss and a swallowed GET error both go on to the store
      var album := GetAlbumById(albumId);
      if album.Err? {
        return Err(album.error);
      }
      var count := LikeCount(likes, albumId);
      if setThrows {
        return Err(CacheError);
      }
      cache := cache[CacheKey(albumId) := count];
      return Ok(LikesCount(count, false));
    }
  }
}
