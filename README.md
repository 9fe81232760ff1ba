# Album likes counter with a cache-aside read path

This project models `AlbumsService` of the OpenMusic API. The service has
two parts:

- album CRUD over the `albums` table: add, get with its songs, edit, delete, set cover;
- a likes counter: users like and unlike albums in `user_album_likes`, and the
  number of likes per album is read through a key/value cache under the key
  `likes:<albumId>`.

The model is a sequential state machine over three abstract stores:

- the albums table, a map from id to (name, year, cover), plus the songs table, which is only read;
- the like table, a map from record id to (userId, albumId);
- the cache, a map from key to integer.

Four modules:

- `Store` (store.dfy): rows, the state value, the like count
  (`COUNT(*) ... WHERE album_id`), the cache key, and the invariants:
  - `UniqueLikes`: at most one record per (user, album), the unique constraint;
  - `LikesReferenceAlbums`: every like names an existing album, the foreign key;
  - `CacheConsistent`: every cached `likes:<a>` equals the store count for `a`.

  It also holds the counting lemmas these rest on.
- `Operations` (operations.dfy): one pure transition per service method. Each
  gives the result returned or thrown and the state afterwards.
- `Service` (service.dfy): the class `AlbumsService`. Its fields are the tables
  and the cache. Its methods run the steps of the JavaScript `AlbumsService` in
  order and stop early with an error. Each method is proved to end exactly as its transition.
- `Properties` (properties.dfy): lemmas.
  - Each operation keeps the invariants, with the two exceptions below.
  - A like moves the count up by one and an unlike down by one.
  - A count read from the cache equals the store count.
  - Read-after-write holds for the album rows.
  - Two concrete runs show where the cache falls behind the store.

Environment inputs are explicit parameters:

- `nanoid(16)` is a 16-character `Nanoid` argument. The new id is `album-`/`like-`
  followed by it. If that id is already taken, the INSERT fails on the primary
  key, which is modelled as `DatabaseError`.
- Whether each cache command raises is a boolean argument: `getThrows`,
  `setThrows`, `delThrows`.
- A cache GET ends as `Hit(v)`, `Miss` or `ReadError` (`CacheRead`). A
  `ReadError` is swallowed, as in the try/catch of `getLikesCount`. The DEL after
  a like or unlike and the SET after a count are outside any try. When one of
  them raises, the store write has already happened and the caller gets
  `CacheError`.

Two behaviours are modelled as written, not corrected:

- `deleteAlbumById` does not delete `likes:<id>`. The album's likes cascade away
  with it, so a cached count survives for an album that no longer exists. Because
  `getLikesCount` answers a hit before it checks that the album exists, it keeps
  returning that stale count with `isCache = true` (`DeleteAlbumLeavesStaleCount`).
- A like or unlike whose DEL raises leaves the old count cached
  (`FailedInvalidationLeavesStaleCount`).

So `CacheConsistent` is proved preserved by add/edit/cover of albums, by
`getLikesCount` always, and by like/unlike when their DEL succeeds. It is not
preserved by album deletion.

## Model

| member | source | states |
|---|---|---|
| `Store.CacheKeyInjective` | src/services/postgres/AlbumsService.js:163 | distinct albums have distinct `likes:<albumId>` keys, so writing one album's count never overwrites another's |
| `Store.SongsOf` | src/services/postgres/AlbumsService.js:41-46 | the songs returned for an album are exactly the (id, title, performer) of the song rows whose `albumId` is that album: each summary occurs as many times as there are such rows with it, and never more results than the table has rows |
| `Store.LikeCount` | src/services/postgres/AlbumsService.js:154-160 | the COUNT over `user_album_likes` for an album is at most the number of records, and is 0 exactly when no record names that album |
| `Store.LikesBy` | src/services/postgres/AlbumsService.js:98-102 | the records the duplicate-check query finds for (user, album) are among that album's like records |
| `Store.HasLike` | src/services/postgres/AlbumsService.js:103 | the duplicate check's `rowCount > 0` holds exactly when some record is (user, album) |
| `Store.WithoutLike` | src/services/postgres/AlbumsService.js:124-129 | the DELETE removes exactly the (user, album) records, keeps every other record with its values, and leaves no record for the pair |
| `Store.WithoutAlbumLikes` | migrations/1766504446388_table-user-album-likes.js:16-17 | the cascade removes exactly the album's like records, keeps every other record with its values, and leaves the album with count 0 |
| `Store.UniqueLikes` | migrations/1766504446388_table-user-album-likes.js:22 | the unique constraint: an empty table meets it, and under it each record is the only record for its (user, album) pair |
| `Store.LikesReferenceAlbums` | migrations/1766504446388_table-user-album-likes.js:13-18 | the foreign key from `album_id`: under it an id that is not in the albums table has a like count of 0 |
| `Store.CacheConsistent` | src/services/postgres/AlbumsService.js:142-163 | the invariant that every cached `likes:<a>` equals the store count of `a`: an empty cache meets it, and under it no cached count is negative |
| `Store.LikeCountInsert` | src/services/postgres/AlbumsService.js:107-113 | inserting a record under a fresh id raises the count of its own album by one and leaves every other album's count unchanged |
| `Store.AtMostOneLike` | migrations/1766504446388_table-user-album-likes.js:22 | under the unique (user_id, album_id) constraint a user has at most one like record per album |
| `Store.LikeCountRemove` | src/services/postgres/AlbumsService.js:124-129 | the DELETE for (user, album) lowers that album's count by the number of records it deleted and leaves other albums' counts unchanged |
| `Store.WithoutLikeWhenAbsent` | src/services/postgres/AlbumsService.js:124-133 | a DELETE that matches no record leaves the like table unchanged, which is the state the NotFound branch reports |
| `Store.LikeCountCascade` | migrations/1766504446388_table-user-album-likes.js:13-18 | after the cascade on album deletion the album has no likes and every other album keeps its count |
| `Operations.ReadCache` | src/services/postgres/AlbumsService.js:140-148 | a cache GET is a hit exactly when it does not raise and the key is present, and then carries the stored value; it is a read error exactly when it raises |
| `Operations.AddAlbum` | src/services/postgres/AlbumsService.js:12-27 | succeeds exactly when `album-<nanoid>` is unused, returns that id and adds only that row (name, year, no cover); otherwise a database error and nothing changes |
| `Operations.GetAlbumById` | src/services/postgres/AlbumsService.js:29-52 | NotFoundError "Album tidak ditemukan" exactly for an unknown id; otherwise the row's name, year and cover together with exactly the songs that reference the album, each as often as its rows occur |
| `Operations.EditAlbumById` | src/services/postgres/AlbumsService.js:54-65 | NotFoundError exactly for an unknown id with nothing changed; otherwise only that row's name and year change, and its cover is kept |
| `Operations.DeleteAlbumById` | src/services/postgres/AlbumsService.js:67-78 | NotFoundError exactly for an unknown id with nothing changed; otherwise that row and exactly the likes of that album are gone, and songs and cache are untouched |
| `Operations.AddCoverAlbumById` | src/services/postgres/AlbumsService.js:80-91 | NotFoundError exactly for an unknown id with nothing changed; otherwise only that row's cover changes |
| `Operations.AddLikeAlbum` | src/services/postgres/AlbumsService.js:93-121 | NotFoundError exactly when the album is absent; InvariantError exactly when the pair is already liked; in both cases nothing changes; DatabaseError exactly when the album exists, the pair is new and the generated id is taken, with nothing changed; success exactly when the album exists, the pair is new, the id is free and the DEL succeeds, and then the one record (user, album) is added and `likes:<albumId>` is removed; CacheError exactly when the same holds but the DEL raises, and then the record is in and the cache is unchanged |
| `Operations.DeleteLikeAlbum` | src/services/postgres/AlbumsService.js:123-137 | NotFoundError exactly when the pair has no record, with nothing changed; otherwise exactly the pair's records are removed, with albums and songs unchanged; then success with `likes:<albumId>` deleted when the DEL succeeds, and CacheError with the cache unchanged exactly when it raises |
| `Operations.GetLikesCount` | src/services/postgres/AlbumsService.js:139-166 | a hit returns the cached value with isCache true and changes nothing, without looking at the album; on a miss or read error an absent album gives NotFoundError, otherwise the store count is returned with isCache false and written to `likes:<albumId>`; an error from the GET never reaches the caller |
| `Service.AlbumsService.constructor` | src/services/postgres/AlbumsService.js:7-10 | the service starts over the given tables and cache |
| `Service.AlbumsService.AddAlbum` | src/services/postgres/AlbumsService.js:12-27 | returns and leaves the state exactly as `Operations.AddAlbum` |
| `Service.AlbumsService.GetAlbumById` | src/services/postgres/AlbumsService.js:29-52 | returns exactly `Operations.GetAlbumById` of the current state, succeeding exactly for a stored id |
| `Service.AlbumsService.EditAlbumById` | src/services/postgres/AlbumsService.js:54-65 | returns and leaves the state exactly as `Operations.EditAlbumById` |
| `Service.AlbumsService.DeleteAlbumById` | src/services/postgres/AlbumsService.js:67-78 | returns and leaves the state exactly as `Operations.DeleteAlbumById` |
| `Service.AlbumsService.AddCoverAlbumById` | src/services/postgres/AlbumsService.js:80-91 | returns and leaves the state exactly as `Operations.AddCoverAlbumById` |
| `Service.AlbumsService.AddLikeAlbum` | src/services/postgres/AlbumsService.js:93-121 | runs the album check, duplicate check, insert and DEL in order and ends exactly as `Operations.AddLikeAlbum` |
| `Service.AlbumsService.DeleteLikeAlbum` | src/services/postgres/AlbumsService.js:123-137 | deletes first and then checks the deleted-row count, in the order of lines 124-133, and ends exactly as `Operations.DeleteLikeAlbum` |
| `Service.AlbumsService.GetLikesCount` | src/services/postgres/AlbumsService.js:139-166 | GET, then on a miss or swallowed error the album check, COUNT and SET, ending exactly as `Operations.GetLikesCount` |
| `Properties.AddAlbumThenGet` | src/services/postgres/AlbumsService.js:12-52 | a newly added album is found by its returned id with the given name and year and no cover, and it is the only new id |
| `Properties.EditAlbumThenGet` | src/services/postgres/AlbumsService.js:54-65 | after an edit the album reads back with the new name and year and its old cover; every other album reads back unchanged |
| `Properties.AddCoverThenGet` | src/services/postgres/AlbumsService.js:80-91 | after setting a cover the album reads back with that cover and its old name and year; every other album reads back unchanged |
| `Properties.DeleteAlbumThenGet` | src/services/postgres/AlbumsService.js:67-78 | after a deletion the album is not found and has no likes; other albums keep their like counts |
| `Properties.AddAlbumKeepsInvariants` | src/services/postgres/AlbumsService.js:12-27 | adding an album keeps the unique and foreign-key constraints and the cache's agreement with the store |
| `Properties.EditAlbumKeepsInvariants` | src/services/postgres/AlbumsService.js:54-65 | editing an album keeps the constraints and the cache's agreement |
| `Properties.AddCoverKeepsInvariants` | src/services/postgres/AlbumsService.js:80-91 | setting a cover keeps the constraints and the cache's agreement |
| `Properties.DeleteAlbumKeepsStoreInvariants` | src/services/postgres/AlbumsService.js:67-78 | deleting an album keeps the unique and foreign-key constraints |
| `Properties.AddLikeCounts` | src/services/postgres/AlbumsService.js:93-121 | a successful like raises the album's count by exactly one, leaves all other counts unchanged, and leaves exactly one record for the pair |
| `Properties.AddLikeKeepsStoreInvariants` | src/services/postgres/AlbumsService.js:98-113 | a like, even one whose DEL raises, keeps at most one record per pair and only likes of existing albums |
| `Properties.AddLikeKeepsCacheConsistent` | src/services/postgres/AlbumsService.js:107-120 | a like whose DEL succeeds keeps every cached count equal to the store count |
| `Properties.DeleteLikeKeepsInvariants` | src/services/postgres/AlbumsService.js:123-137 | an unlike keeps the constraints; when its DEL succeeds it keeps the cache's agreement; a successful unlike lowers the album's count by exactly one |
| `Properties.GetLikesCountKeepsInvariants` | src/services/postgres/AlbumsService.js:139-166 | reading the count keeps the constraints and the cache's agreement, whichever cache command raises |
| `Properties.ExpiryKeepsCacheConsistent` | src/services/redis/CacheService.js:18-22 | removing any cache key, which is all an expiry does, cannot make the cache disagree with the store |
| `Properties.CountIsStoreCount` | src/services/postgres/AlbumsService.js:139-166 | while the cache agrees with the store, every count returned equals the store count, from whichever source |
| `Properties.LikeThenCount` | src/services/postgres/AlbumsService.js:93-166 | a like followed by a count whose SET succeeds returns the previous store count plus one, with isCache false |
| `Properties.UnlikeThenCount` | src/services/postgres/AlbumsService.js:123-166 | an unlike followed by a count whose SET succeeds returns the previous store count minus one, with isCache false; the album needs no check of its own, because the foreign key admits a like only for an existing album |
| `Properties.CountLikeCount` | src/services/postgres/AlbumsService.js:93-166 | count, like, count: the second count is the first plus one, whichever source each came from |
| `Properties.ColdThenWarm` | src/services/postgres/AlbumsService.js:139-166 | for an unliked album with a cold cache, the first count is 0 from the store and the next count is 0 from the cache |
| `Properties.LikeTwice` | src/services/postgres/AlbumsService.js:98-105 | a second like of the same pair fails with InvariantError, changes nothing, and exactly one record for the pair remains |
| `Properties.DeleteAlbumLeavesStaleCount` | src/services/postgres/AlbumsService.js:67-78 | a concrete run: deleting a liked album whose count is cached breaks the cache's agreement, and a later count still answers 1 from the cache for the deleted album |
| `Properties.FailedInvalidationLeavesStaleCount` | src/services/postgres/AlbumsService.js:113-120 | a concrete run: a like whose DEL raises is stored anyway, the caller gets an error, and the next count is a cache hit with the old value 0 |

## Left out

- SQL text, the `pg` pool and result-row shapes are replaced by abstract tables. The `!result.rows[0].id` checks after an INSERT ... RETURNING cannot fail in this model.
- The Redis client is modelled as a map. Its 1800-second expiry is not modelled, because it depends on wall-clock time; `ExpiryKeepsCacheConsistent` shows that removing a key cannot break the invariant.
- The JSON encoding of the cached value and the `parseInt` of the count are left out: integers are stored directly. A corrupt cached string would make `JSON.parse` raise inside the try. The model covers that case as a read error.
- Concurrency is left out. Two likes racing on the unique constraint, and reads interleaved with writes, are outside a sequential model. The unique and foreign-key constraints are modelled as invariants the store keeps, not as errors an INSERT can raise.
- The `users` table and the foreign key from `user_id` are left out. The user id comes from authenticated credentials.
- The songs table's own schema is not part of this model. Deleting an album leaves the songs table unchanged. Whether the real schema nulls out, cascades or refuses such songs is unknown here.
- `nanoid`'s alphabet and randomness are left out. A suffix is any 16-character string supplied by the caller of the model.
- The export pipeline, the mail sender, the HTTP handlers and routes, and `process.env` configuration are not part of this model.
- A cache command that hangs instead of raising is not modelled. Such a request never completes.
