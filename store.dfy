/**
 * The abstract state the album service works on: the `albums` table, the
 * `songs` table (read only here), the `user_album_likes` table and the
 * key/value cache. Row shapes, the like count, the cache key format and the
 * invariants relating them are defined once, here.
 */
module Store {

  type AlbumId = string
  type UserId = string
  type LikeId = string

  /** The output of `nanoid(16)`: sixteen characters (the alphabet is not modelled). */
  type Nanoid = s: string | |s| == 16 witness "0000000000000000"

  datatype Option<T> = None | Some(value: T)

  /** A row of `albums`; `cover` is the nullable `cover_url` column. */
  datatype Album = Album(name: string, year: int, cover: Option<string>)

  /** A row of `songs`; `albumId` is the nullable `"albumId"` column. */
  datatype SongRow = SongRow(id: string, title: string, performer: string, albumId: Option<AlbumId>)

  /** The three columns of a song that an album lookup returns. */
  datatype SongSummary = SongSummary(id: string, title: string, performer: string)

  /** A row of `user_album_likes`, keyed by its record id. */
  datatype Like = Like(userId: UserId, albumId: AlbumId)

  /** Everything the service reads or writes, as one value. */
  datatype State = State(
    albums: map<AlbumId, Album>,
    songs: seq<SongRow>,
    likes: map<LikeId, Like>,
    cache: map<string, int>)

  function AlbumIdFor(suffix: Nanoid): AlbumId { "album-" + suffix }

  function LikeIdFor(suffix: Nanoid): LikeId { "like-" + suffix }

  /** The cache key under which the like count of an album is stored. */
  function CacheKey(albumId: AlbumId): string { "likes:" + albumId }

  lemma CacheKeyInjective(a: AlbumId, b: AlbumId)
    requires CacheKey(a) == CacheKey(b)
    ensures a == b
  {
    assert a == CacheKey(a)[6..];
    assert b == CacheKey(b)[6..];
  }

  function Summary(row: SongRow): SongSummary
  {
    SongSummary(row.id, row.title, row.performer)
  }

  /** The positions in the table of the album's rows whose summary is `x`. */
  ghost function RowsWith(songs: seq<SongRow>, albumId: AlbumId, x: SongSummary): set<int>
  {
    set i | 0 <= i < |songs| && songs[i].albumId == Some(albumId) && Summary(songs[i]) == x
  }

  /** The songs whose `"albumId"` is the given album, in table order. */
  function SongsOf(songs: seq<SongRow>, albumId: AlbumId): (r: seq<SongSummary>)
    ensures |r| <= |songs|
    ensures forall row :: row in songs && row.albumId == Some(albumId) ==> Summary(row) in r
    ensures forall x :: x in r ==> exists row :: row in songs && row.albumId == Some(albumId) && Summary(row) == x
    // each summary appears once per row of the album that has it, no more and no less
    ensures forall x :: multiset(r)[x] == |RowsWith(songs, albumId, x)|
  {
    if songs == [] then
      assert forall x :: RowsWith(songs, albumId, x) == {};
      []
    else
      var rest := SongsOf(songs[1..], albumId);
      assert forall row :: row in songs[1..] ==> row in songs;
      assert forall row :: row in songs ==> row == songs[0] || row in songs[1..];
      RowsWithStep(songs, albumId);
      if songs[0].albumId == Some(albumId) then [Summary(songs[0])] + rest else rest
  }

  /** Adding one to every element keeps the number of elements. */
  lemma {:induction false} ShiftedSize(a: set<int>)
    ensures |set i | i in a :: i + 1| == |a|
    decreases |a|
  {
    var image := set i | i in a :: i + 1;
    if a == {} {
      assert image == {};
    } else {
      var k := PickOne(a);
      var rest := a - {k};
      var restImage := set i | i in rest :: i + 1;
      ShiftedSize(rest);
      forall j | j in image
        ensures j in restImage + {k + 1}
      {
        var i := j - 1;
        assert i in a;
        if i != k {
          assert i in rest;
          assert i + 1 in restImage;
        }
      }
      assert image == restImage + {k + 1};
      assert k + 1 !in restImage;
    }
  }

  /** Some element of a non-empty set. */
  lemma PickOne<T>(a: set<T>) returns (k: T)
    requires a != {}
    ensures k in a
  {
    // a set with no element is the empty set
    if forall j :: j !in a {
      assert false;
    }
    k :| k in a;
  }

  /** The rows of a non-empty table are its first row and the rows of the rest. */
  lemma RowsWithStep(songs: seq<SongRow>, albumId: AlbumId)
    requires songs != []
    ensures forall x :: (|RowsWith(songs, albumId, x)|
      == (if songs[0].albumId == Some(albumId) && Summary(songs[0]) == x then 1 else 0)
         + |RowsWith(songs[1..], albumId, x)|)
  {
    forall x
      ensures |RowsWith(songs, albumId, x)|
        == (if songs[0].albumId == Some(albumId) && Summary(songs[0]) == x then 1 else 0)
           + |RowsWith(songs[1..], albumId, x)|
    {
      var tail := RowsWith(songs[1..], albumId, x);
      var shifted := set i | i in tail :: i + 1;
      var head: set<int> := if songs[0].albumId == Some(albumId) && Summary(songs[0]) == x then {0} else {};
      forall i | i in RowsWith(songs, albumId, x) && i != 0
        ensures i in shifted
      {
        assert songs[1..][i - 1] == songs[i];
        assert i - 1 in tail;
      }
      assert RowsWith(songs, albumId, x) == head + shifted;
      assert 0 !in shifted;
      ShiftedSize(tail);
    }
  }

  /** The like records of an album. */
  function LikesOf(likes: map<LikeId, Like>, albumId: AlbumId): set<LikeId>
  {
    set id | id in likes && likes[id].albumId == albumId
  }

  /** `SELECT COUNT(*) FROM user_album_likes WHERE album_id = albumId`. */
  function LikeCount(likes: map<LikeId, Like>, albumId: AlbumId): (n: nat)
    ensures n <= |likes|
    ensures n == 0 <==> forall id :: id in likes ==> likes[id].albumId != albumId
  {
    NoLikesOfIff(likes, albumId);
    SubsetSize(LikesOf(likes, albumId), likes.Keys);
    |LikesOf(likes, albumId)|
  }

  /** The like records of one user for one album. */
  function LikesBy(likes: map<LikeId, Like>, userId: UserId, albumId: AlbumId): (r: set<LikeId>)
    ensures r <= LikesOf(likes, albumId)
  {
    set id | id in likes && likes[id] == Like(userId, albumId)
  }

  predicate HasLike(likes: map<LikeId, Like>, userId: UserId, albumId: AlbumId)
    ensures HasLike(likes, userId, albumId) <==> exists id :: id in likes && likes[id] == Like(userId, albumId)
  {
    NoLikesByIff(likes, userId, albumId);
    |LikesBy(likes, userId, albumId)| > 0
  }

  /** The table after `DELETE ... WHERE user_id = userId AND album_id = albumId`. */
  function WithoutLike(likes: map<LikeId, Like>, userId: UserId, albumId: AlbumId): (r: map<LikeId, Like>)
    ensures r.Keys == likes.Keys - LikesBy(likes, userId, albumId)
    ensures forall id :: id in r ==> r[id] == likes[id]
    ensures !HasLike(r, userId, albumId)
  {
    map id | id in likes && likes[id] != Like(userId, albumId) :: likes[id]
  }

  /** The table after the album's row is deleted and its likes cascade away. */
  function WithoutAlbumLikes(likes: map<LikeId, Like>, albumId: AlbumId): (r: map<LikeId, Like>)
    ensures r.Keys == likes.Keys - LikesOf(likes, albumId)
    ensures forall id :: id in r ==> r[id] == likes[id]
    ensures LikeCount(r, albumId) == 0
  {
    map id | id in likes && likes[id].albumId != albumId :: likes[id]
  }

  /** The unique constraint on `(user_id, album_id)`: at most one record per pair. */
  ghost predicate UniqueLikes(likes: map<LikeId, Like>)
    ensures likes == map[] ==> UniqueLikes(likes)
    ensures UniqueLikes(likes) ==>
      forall id :: id in likes ==> LikesBy(likes, likes[id].userId, likes[id].albumId) == {id}
  {
    forall i, j :: i in likes && j in likes && likes[i] == likes[j] ==> i == j
  }

  /** The foreign key from `album_id` to `albums`. */
  ghost predicate LikesReferenceAlbums(s: State)
    ensures LikesReferenceAlbums(s) ==> forall a :: a !in s.albums ==> LikeCount(s.likes, a) == 0
  {
    forall id :: id in s.likes ==> s.likes[id].albumId in s.albums
  }

  /** The constraints the store itself enforces. */
  ghost predicate Valid(s: State)
  {
    UniqueLikes(s.likes) && LikesReferenceAlbums(s)
  }

  /** Every cached like count equals the count in the store. */
  ghost predicate CacheConsistent(s: State)
    ensures s.cache == map[] ==> CacheConsistent(s)
    ensures CacheConsistent(s) ==> forall a :: CacheKey(a) in s.cache ==> s.cache[CacheKey(a)] >= 0
  {
    forall a :: CacheKey(a) in s.cache ==> s.cache[CacheKey(a)] == LikeCount(s.likes, a)
  }

  // Counting lemmas

  /** A set has no elements exactly when its size is 0. */
  lemma SizeZeroIff<T>(a: set<T>)
    ensures |a| == 0 <==> forall x :: x !in a
  {
    if |a| != 0 {
      var x := PickOne(a);
    }
  }

  lemma NoLikesOfIff(likes: map<LikeId, Like>, albumId: AlbumId)
    ensures |LikesOf(likes, albumId)| == 0 <==> forall id :: id in likes ==> likes[id].albumId != albumId
  {
    var matching := LikesOf(likes, albumId);
    SizeZeroIff(matching);
    if |matching| == 0 {
      forall id | id in likes
        ensures likes[id].albumId != albumId
      {
        assert id !in matching;
      }
    }
  }

  lemma NoLikesByIff(likes: map<LikeId, Like>, userId: UserId, albumId: AlbumId)
    ensures |LikesBy(likes, userId, albumId)| > 0 <==> exists id :: id in likes && likes[id] == Like(userId, albumId)
  {
    var matching := LikesBy(likes, userId, albumId);
    SizeZeroIff(matching);
    if |matching| > 0 {
      var id := PickOne(matching);
      assert id in likes && likes[id] == Like(userId, albumId);
    } else {
      forall id | id in likes
        ensures likes[id] != Like(userId, albumId)
      {
        assert id !in matching;
      }
    }
  }

  /** A subset is no larger than the set it is taken from. */
  lemma {:induction false} SubsetSize<T>(a: set<T>, b: set<T>)
    requires a <= b
    ensures |a| <= |b|
    decreases |a|
  {
    if a != {} {
      var x := PickOne(a);
      SubsetSize(a - {x}, b - {x});
    }
  }

  /** Inserting a record with a fresh id adds one to its album's count only. */
  lemma LikeCountInsert(likes: map<LikeId, Like>, id: LikeId, like: Like, albumId: AlbumId)
    requires id !in likes
    ensures LikeCount(likes[id := like], albumId)
         == LikeCount(likes, albumId) + (if like.albumId == albumId then 1 else 0)
  {
    var before, after := LikesOf(likes, albumId), LikesOf(likes[id := like], albumId);
    if like.albumId == albumId {
      assert after == before + {id};
    } else {
      assert after == before;
    }
  }

  /** Under the unique constraint a user has at most one record per album. */
  lemma AtMostOneLike(likes: map<LikeId, Like>, userId: UserId, albumId: AlbumId)
    requires UniqueLikes(likes)
    ensures |LikesBy(likes, userId, albumId)| <= 1
  {
    var matching := LikesBy(likes, userId, albumId);
    if matching != {} {
      var i :| i in matching;
      assert matching == {i};
    }
  }

  /** Deleting a user's like takes that user's records out of the album's count only. */
  lemma LikeCountRemove(likes: map<LikeId, Like>, userId: UserId, albumId: AlbumId, b: AlbumId)
    ensures LikeCount(WithoutLike(likes, userId, albumId), b)
         == LikeCount(likes, b) - (if b == albumId then |LikesBy(likes, userId, albumId)| else 0)
  {
    var matching := LikesBy(likes, userId, albumId);
    var after := LikesOf(WithoutLike(likes, userId, albumId), b);
    if b == albumId {
      assert after == LikesOf(likes, b) - matching;
      assert matching <= LikesOf(likes, b);
    } else {
      assert after == LikesOf(likes, b);
    }
  }

  /** A DELETE that matches no record leaves the table as it was. */
  lemma WithoutLikeWhenAbsent(likes: map<LikeId, Like>, userId: UserId, albumId: AlbumId)
    requires !HasLike(likes, userId, albumId)
    ensures WithoutLike(likes, userId, albumId) == likes
  {
    forall id | id in likes
      ensures likes[id] != Like(userId, albumId)
    {
      assert id !in LikesBy(likes, userId, albumId);
    }
  }

  /** After a cascade an album has no likes left and every other album keeps its count. */
  lemma LikeCountCascade(likes: map<LikeId, Like>, albumId: AlbumId, b: AlbumId)
    ensures LikeCount(WithoutAlbumLikes(likes, albumId), b) == if b == albumId then 0 else LikeCount(likes, b)
  {
    var after := LikesOf(WithoutAlbumLikes(likes, albumId), b);
    if b == albumId {
      assert after == {};
    } else {
      assert after == LikesOf(likes, b);
    }
  }
}
