/**
 * The interaction half of the backend (api/interactions.py): the like
 * toggle with the post's denormalised like counter, and the list of who
 * liked a post.
 *
 * The database session becomes two tables held as values: the posts'
 * `like_count` column as a map from post id, and the `LikedPost` rows in
 * storage order. A toggle's two writes are committed together, so the model
 * applies them as one step.
 */
module Interactions {
  import opened Common
  import Identity

  /** A `LikedPost` row: `userId` currently likes `postId`. */
  datatype Like = Like(id: Uuid, userId: Uuid, postId: Uuid)

  /** One entry of the liker list. */
  datatype LikedBy = LikedBy(name: string, username: string, profileImage: string, likeId: Uuid, postId: Uuid)

  /** The part of the database the toggle reads and writes. */
  datatype Tables = Tables(likeCount: map<Uuid, int>, likes: seq<Like>)

  /** The number of like rows that reference `post`. */
  function CountFor(likes: seq<Like>, post: Uuid): nat
  {
    if |likes| == 0 then 0
    else (if likes[0].postId == post then 1 else 0) + CountFor(likes[1..], post)
  }

  /** The like rows of one (user, post) pair, in storage order. */
  function RowsOf(likes: seq<Like>, user: Uuid, post: Uuid): seq<Like>
  {
    if |likes| == 0 then []
    else (if likes[0].userId == user && likes[0].postId == post then [likes[0]] else [])
         + RowsOf(likes[1..], user, post)
  }

  /** `user` has a like row on `post`. */
  predicate HasLike(likes: seq<Like>, user: Uuid, post: Uuid)
  {
    exists i :: 0 <= i < |likes| && likes[i].userId == user && likes[i].postId == post
  }

  /** Some like row already uses the primary key `id`. */
  predicate RowIdTaken(likes: seq<Like>, id: Uuid)
  {
    exists i :: 0 <= i < |likes| && likes[i].id == id
  }

  /** At most one row per (user, post) pair. */
  ghost predicate UniquePairs(likes: seq<Like>)
  {
    forall i, j :: 0 <= i < j < |likes| ==> likes[i].userId != likes[j].userId || likes[i].postId != likes[j].postId
  }

  /** Primary keys are distinct. */
  ghost predicate UniqueRowIds(likes: seq<Like>)
  {
    forall i, j :: 0 <= i < j < |likes| ==> likes[i].id != likes[j].id
  }

  /**
   * The database invariant the toggle maintains: one row per pair, distinct
   * keys, and every post's counter equal to the number of its like rows.
   */
  ghost predicate Consistent(s: Tables)
  {
    && UniquePairs(s.likes)
    && UniqueRowIds(s.likes)
    && forall p :: p in s.likeCount ==> s.likeCount[p] == CountFor(s.likes, p)
  }

  /**
   * The query `select(LikedPost).where(user_id == user, post_id == post).first()`:
   * the index of the first row of the pair, if any.
   */
  function FindLike(likes: seq<Like>, user: Uuid, post: Uuid): (r: Option<nat>)
    ensures r.None? <==> !HasLike(likes, user, post)
    ensures r.Some? ==> r.value < |likes| && likes[r.value].userId == user && likes[r.value].postId == post
  {
    FirstIndex(likes, (l: Like) => l.userId == user && l.postId == post)
  }

  /** The rows without the one at index `i` (a `session.delete`). */
  function Remove(likes: seq<Like>, i: nat): (r: seq<Like>)
    requires i < |likes|
    ensures |r| == |likes| - 1
    ensures forall k :: 0 <= k < |r| ==> r[k] == if k < i then likes[k] else likes[k + 1]
  {
    likes[..i] + likes[i + 1..]
  }

  /**
   * `like_post` on the tables, as a value: an unknown post is a 404 and
   * changes nothing; without a like row for the pair one is created and the
   * counter goes up by one; with one, that row is deleted and the counter
   * goes down by one. The new row's key is the fresh UUID it is created
   * with; should it clash with an existing key, the commit fails (a 500)
   * and nothing changes.
   */
  function Toggle(s: Tables, user: Uuid, post: Uuid, likeId: Uuid): (r: (Result<Uuid>, Tables))
    ensures r.0 == Err(NotFound) <==> post !in s.likeCount
    ensures r.0 == Err(Internal) <==> post in s.likeCount && !HasLike(s.likes, user, post) && RowIdTaken(s.likes, likeId)
    ensures r.0.Ok? <==> post in s.likeCount && (HasLike(s.likes, user, post) || !RowIdTaken(s.likes, likeId))
    ensures r.0.Err? ==> r.1 == s
    ensures r.0.Ok? ==> r.0.value == post
    ensures r.0.Ok? && !HasLike(s.likes, user, post) ==>
      && r.1.likes == s.likes + [Like(likeId, user, post)]
      && r.1.likeCount == s.likeCount[post := s.likeCount[post] + 1]
    ensures r.0.Ok? && HasLike(s.likes, user, post) ==>
      exists i :: 0 <= i < |s.likes| && s.likes[i].userId == user && s.likes[i].postId == post
        && r.1.likes == Remove(s.likes, i)
        && r.1.likeCount == s.likeCount[post := s.likeCount[post] - 1]
  {
    if post !in s.likeCount then (Err(NotFound), s)
    else match FindLike(s.likes, user, post)
      case None =>
        if RowIdTaken(s.likes, likeId) then (Err(Internal), s)
        else (Ok(post), Tables(s.likeCount[post := s.likeCount[post] + 1], s.likes + [Like(likeId, user, post)]))
      case Some(i) =>
        (Ok(post), Tables(s.likeCount[post := s.likeCount[post] - 1], Remove(s.likes, i)))
  }

  /** The tables of the backend, updated in place by `like_post`. */
  class InteractionStore {
    var likeCount: map<Uuid, int>
    var likes: seq<Like>

    function State(): Tables
      reads this
    {
      Tables(likeCount, likes)
    }

    ghost predicate Valid()
      reads this
    {
      Consistent(State())
    }

    /** A store holding the given posts, none of them liked yet. */
    constructor (posts: map<Uuid, int>)
      requires forall p :: p in posts ==> posts[p] == 0
      ensures State() == Tables(posts, []) && Valid()
    {
      likeCount := posts;
      likes := [];
    }

    /** `PATCH /interactions/{post_id}` on behalf of `currentUser`. */
    method LikePost(currentUser: Uuid, postId: Uuid, likeId: Uuid) returns (r: Result<Uuid>)
      modifies this
      ensures (r, State()) == Toggle(old(State()), currentUser, postId, likeId)
      ensures old(Valid()) ==> Valid()
    {
      if Valid() {
        TogglePreservesConsistency(State(), currentUser, postId, likeId);
      }
      if postId !in likeCount {
        return Err(NotFound);
      }
      var like := FindLike(likes, currentUser, postId);
      match like {
        case None =>
          if RowIdTaken(likes, likeId) {
            return Err(Internal);
          }
          likeCount := likeCount[postId := likeCount[postId] + 1];
          likes := likes + [Like(likeId, currentUser, postId)];
        case Some(i) =>
          likeCount := likeCount[postId := likeCount[postId] - 1];
          likes := Remove(likes, i);
      }
      r := Ok(postId);
    }
  }

  // ---------------------------------------------------------------------
  // Counting and filtering over appended and shortened tables
  // ---------------------------------------------------------------------

  lemma {:induction false} CountAppend(a: seq<Like>, b: seq<Like>, post: Uuid)
    ensures CountFor(a + b, post) == CountFor(a, post) + CountFor(b, post)
  {
    if |a| > 0 {
      assert (a + b)[1..] == a[1..] + b;
      CountAppend(a[1..], b, post);
    } else {
      assert a + b == b;
    }
  }

  lemma {:induction false} RowsOfAppend(a: seq<Like>, b: seq<Like>, user: Uuid, post: Uuid)
    ensures RowsOf(a + b, user, post) == RowsOf(a, user, post) + RowsOf(b, user, post)
  {
    if |a| > 0 {
      assert (a + b)[1..] == a[1..] + b;
      RowsOfAppend(a[1..], b, user, post);
    } else {
      assert a + b == b;
    }
  }

  /** Deleting row `i` lowers the count of its post by one and no other. */
  lemma CountRemove(likes: seq<Like>, i: nat, post: Uuid)
    requires i < |likes|
    ensures CountFor(Remove(likes, i), post) == CountFor(likes, post) - (if likes[i].postId == post then 1 else 0)
  {
    assert likes == likes[..i] + ([likes[i]] + likes[i + 1..]);
    CountAppend(likes[..i], [likes[i]] + likes[i + 1..], post);
    CountAppend([likes[i]], likes[i + 1..], post);
    CountAppend(likes[..i], likes[i + 1..], post);
  }

  /** Deleting row `i` leaves the rows of every other pair as they were. */
  lemma RowsOfRemove(likes: seq<Like>, i: nat, user: Uuid, post: Uuid)
    requires i < |likes|
    requires likes[i].userId != user || likes[i].postId != post
    ensures RowsOf(Remove(likes, i), user, post) == RowsOf(likes, user, post)
  {
    assert likes == likes[..i] + ([likes[i]] + likes[i + 1..]);
    RowsOfAppend(likes[..i], [likes[i]] + likes[i + 1..], user, post);
    RowsOfAppend([likes[i]], likes[i + 1..], user, post);
    RowsOfAppend(likes[..i], likes[i + 1..], user, post);
  }

  // ---------------------------------------------------------------------
  // Properties of the toggle
  // ---------------------------------------------------------------------

  /**
   * A successful toggle flips whether the pair has a like row, and moves
   * the number of the post's rows by exactly the step it moves the counter.
   */
  lemma ToggleFlips(s: Tables, user: Uuid, post: Uuid, likeId: Uuid)
    requires UniquePairs(s.likes)
    requires Toggle(s, user, post, likeId).0.Ok?
    ensures var s' := Toggle(s, user, post, likeId).1;
      && (HasLike(s'.likes, user, post) <==> !HasLike(s.likes, user, post))
      && CountFor(s'.likes, post) - CountFor(s.likes, post) == s'.likeCount[post] - s.likeCount[post]
  {
    var s' := Toggle(s, user, post, likeId).1;
    if HasLike(s.likes, user, post) {
      var i := FindLike(s.likes, user, post).value;
      assert s'.likes == Remove(s.likes, i);
      CountRemove(s.likes, i, post);
      forall k | 0 <= k < |s'.likes|
        ensures s'.likes[k].userId != user || s'.likes[k].postId != post
      {
        var k0 := if k < i then k else k + 1;
        assert s'.likes[k] == s.likes[k0] && k0 != i;
      }
    } else {
      CountAppend(s.likes, [Like(likeId, user, post)], post);
      assert s'.likes[|s.likes|] == Like(likeId, user, post);
    }
  }

  /** Counters of other posts and like rows of other pairs are untouched. */
  lemma ToggleFrame(s: Tables, user: Uuid, post: Uuid, likeId: Uuid, user': Uuid, post': Uuid)
    requires user' != user || post' != post
    ensures var s' := Toggle(s, user, post, likeId).1;
      && s'.likeCount.Keys == s.likeCount.Keys
      && (post' in s.likeCount && post' != post ==> s'.likeCount[post'] == s.likeCount[post'])
      && RowsOf(s'.likes, user', post') == RowsOf(s.likes, user', post')
  {
    var r := Toggle(s, user, post, likeId);
    if r.0.Ok? {
      if HasLike(s.likes, user, post) {
        var i := FindLike(s.likes, user, post).value;
        RowsOfRemove(s.likes, i, user', post');
      } else {
        RowsOfAppend(s.likes, [Like(likeId, user, post)], user', post');
      }
    }
  }

  /** Deleting a row keeps pairs and keys unique. */
  lemma RemoveKeepsUnique(likes: seq<Like>, i: nat)
    requires i < |likes| && UniquePairs(likes) && UniqueRowIds(likes)
    ensures UniquePairs(Remove(likes, i)) && UniqueRowIds(Remove(likes, i))
  {
    var r := Remove(likes, i);
    forall a, b | 0 <= a < b < |r|
      ensures r[a].userId != r[b].userId || r[a].postId != r[b].postId
      ensures r[a].id != r[b].id
    {
      var a0 := if a < i then a else a + 1;
      var b0 := if b < i then b else b + 1;
      assert r[a] == likes[a0] && r[b] == likes[b0] && a0 < b0;
    }
  }

  /** Appending a row of a new pair with a new key keeps pairs and keys unique. */
  lemma AppendKeepsUnique(likes: seq<Like>, row: Like)
    requires UniquePairs(likes) && UniqueRowIds(likes)
    requires !HasLike(likes, row.userId, row.postId) && !RowIdTaken(likes, row.id)
    ensures UniquePairs(likes + [row]) && UniqueRowIds(likes + [row])
  {
    var r := likes + [row];
    forall a, b | 0 <= a < b < |r|
      ensures r[a].userId != r[b].userId || r[a].postId != r[b].postId
      ensures r[a].id != r[b].id
    {
      assert r[a] == likes[a];
      if b < |likes| {
        assert r[b] == likes[b];
      }
    }
  }

  /** Every toggle keeps the tables consistent: one row per pair, counter equal to rows. */
  lemma TogglePreservesConsistency(s: Tables, user: Uuid, post: Uuid, likeId: Uuid)
    requires Consistent(s)
    ensures Consistent(Toggle(s, user, post, likeId).1)
  {
    var r := Toggle(s, user, post, likeId);
    var s' := r.1;
    if r.0.Ok? {
      if HasLike(s.likes, user, post) {
        var i := FindLike(s.likes, user, post).value;
        assert s'.likes == Remove(s.likes, i);
        forall p | p in s'.likeCount ensures s'.likeCount[p] == CountFor(s'.likes, p) {
          CountRemove(s.likes, i, p);
        }
        RemoveKeepsUnique(s.likes, i);
      } else {
        var row := Like(likeId, user, post);
        assert s'.likes == s.likes + [row];
        forall p | p in s'.likeCount ensures s'.likeCount[p] == CountFor(s'.likes, p) {
          CountAppend(s.likes, [row], p);
        }
        AppendKeepsUnique(s.likes, row);
      }
    }
  }

  /**
   * Toggling twice from "not liked" succeeds both times and gives back the
   * original tables exactly: the row created by the first call is the one
   * the second deletes.
   */
  lemma ToggleTwiceFromUnliked(s: Tables, user: Uuid, post: Uuid, id1: Uuid, id2: Uuid)
    requires post in s.likeCount
    requires !HasLike(s.likes, user, post) && !RowIdTaken(s.likes, id1)
    ensures var r1 := Toggle(s, user, post, id1);
            var r2 := Toggle(r1.1, user, post, id2);
      r1.0 == Ok(post) && r2.0 == Ok(post) && r2.1 == s
  {
    var row := Like(id1, user, post);
    var r1 := Toggle(s, user, post, id1);
    assert r1.1.likes == s.likes + [row];
    assert FindLike(r1.1.likes, user, post) == Some(|s.likes|) by {
      var j := FindLike(r1.1.likes, user, post);
      assert r1.1.likes[|s.likes|] == row;
    }
    assert Remove(r1.1.likes, |s.likes|) == s.likes;
  }

  /**
   * Toggling twice from "liked" succeeds both times and gives back the
   * original counters; the pair's row is deleted and re-created under the
   * second call's fresh key, so the rows agree with the original ones up to
   * that key and their position.
   */
  lemma ToggleTwiceFromLiked(s: Tables, user: Uuid, post: Uuid, id1: Uuid, id2: Uuid)
    requires Consistent(s) && post in s.likeCount
    requires HasLike(s.likes, user, post) && !RowIdTaken(s.likes, id2)
    ensures var r1 := Toggle(s, user, post, id1);
            var r2 := Toggle(r1.1, user, post, id2);
      && r1.0 == Ok(post) && r2.0 == Ok(post)
      && r2.1.likeCount == s.likeCount
      && multiset(Pairs(r2.1.likes)) == multiset(Pairs(s.likes))
      && exists i :: 0 <= i < |s.likes| && s.likes[i].userId == user && s.likes[i].postId == post
           && r2.1.likes == Remove(s.likes, i) + [Like(id2, user, post)]
  {
    var r1 := Toggle(s, user, post, id1);
    var i := FindLike(s.likes, user, post).value;
    assert r1.1.likes == Remove(s.likes, i);
    ToggleFlips(s, user, post, id1);
    var r2 := Toggle(r1.1, user, post, id2);
    assert r2.1.likes == Remove(s.likes, i) + [Like(id2, user, post)];
    PairsRemove(s.likes, i);
    PairsAppend(Remove(s.likes, i), [Like(id2, user, post)]);
  }

  /** The (user, post) pair of every row, in storage order. */
  function Pairs(likes: seq<Like>): (r: seq<(Uuid, Uuid)>)
  {
    seq(|likes|, k requires 0 <= k < |likes| => (likes[k].userId, likes[k].postId))
  }

  lemma PairsAppend(a: seq<Like>, b: seq<Like>)
    ensures Pairs(a + b) == Pairs(a) + Pairs(b)
  {
  }

  /** Deleting row `i` removes exactly its pair from the multiset of pairs. */
  lemma PairsRemove(likes: seq<Like>, i: nat)
    requires i < |likes|
    ensures multiset(Pairs(Remove(likes, i))) + multiset{(likes[i].userId, likes[i].postId)} == multiset(Pairs(likes))
  {
    var ps := Pairs(likes);
    assert Pairs(Remove(likes, i)) == ps[..i] + ps[i + 1..];
    assert ps == ps[..i] + [ps[i]] + ps[i + 1..];
  }

  // ---------------------------------------------------------------------
  // A run of toggles: each of several users likes a post once
  // ---------------------------------------------------------------------

  /** The tables after `users[k]` toggles `post` with fresh key `ids[k]`, in order. */
  function ToggleEach(s: Tables, users: seq<Uuid>, post: Uuid, ids: seq<Uuid>): Tables
    requires |ids| == |users|
    decreases |users|
  {
    if |users| == 0 then s
    else ToggleEach(Toggle(s, users[0], post, ids[0]).1, users[1..], post, ids[1..])
  }

  ghost predicate Distinct(xs: seq<Uuid>)
  {
    forall i, j :: 0 <= i < j < |xs| ==> xs[i] != xs[j]
  }

  /** The like rows a run of first likes creates: `users[k]` with key `ids[k]`. */
  function NewRows(users: seq<Uuid>, post: Uuid, ids: seq<Uuid>): seq<Like>
    requires |ids| == |users|
  {
    seq(|users|, k requires 0 <= k < |users| => Like(ids[k], users[k], post))
  }

  /**
   * When distinct users, none of whom likes `post` yet, each toggle it once
   * with distinct fresh keys, the counter rises by the number of users,
   * every one of them ends up with a like row, earlier rows stay in place,
   * and the tables stay consistent.
   */
  lemma {:induction false} ToggleEachLikes(s: Tables, users: seq<Uuid>, post: Uuid, ids: seq<Uuid>)
    requires Consistent(s) && post in s.likeCount
    requires |ids| == |users| && Distinct(users) && Distinct(ids)
    requires forall k :: 0 <= k < |users| ==> !HasLike(s.likes, users[k], post)
    requires forall k :: 0 <= k < |ids| ==> !RowIdTaken(s.likes, ids[k])
    decreases |users|
    ensures var s' := ToggleEach(s, users, post, ids);
      && Consistent(s')
      && post in s'.likeCount
      && s'.likeCount[post] == s.likeCount[post] + |users|
      && s'.likeCount == s.likeCount[post := s.likeCount[post] + |users|]
      && s'.likes == s.likes + NewRows(users, post, ids)
      && forall k :: 0 <= k < |users| ==> HasLike(s'.likes, users[k], post)
  {
    if |users| > 0 {
      var row := Like(ids[0], users[0], post);
      var s1 := Toggle(s, users[0], post, ids[0]).1;
      assert s1.likes == s.likes + [row];
      TogglePreservesConsistency(s, users[0], post, ids[0]);
      forall k | 0 <= k < |users| - 1 ensures !HasLike(s1.likes, users[1..][k], post) {
        assert users[1..][k] == users[k + 1] != users[0];
      }
      forall k | 0 <= k < |ids| - 1 ensures !RowIdTaken(s1.likes, ids[1..][k]) {
        assert ids[1..][k] == ids[k + 1] != ids[0];
      }
      ToggleEachLikes(s1, users[1..], post, ids[1..]);
      var s' := ToggleEach(s, users, post, ids);
      assert s' == ToggleEach(s1, users[1..], post, ids[1..]);
      assert [row] + NewRows(users[1..], post, ids[1..]) == NewRows(users, post, ids);
      assert s'.likes == s.likes + NewRows(users, post, ids);
      forall k | 0 <= k < |users| ensures HasLike(s'.likes, users[k], post) {
        assert s'.likes[|s.likes| + k] == Like(ids[k], users[k], post);
      }
    } else {
      assert s.likes + NewRows(users, post, ids) == s.likes;
      assert s.likeCount[post := s.likeCount[post]] == s.likeCount;
    }
  }

  // ---------------------------------------------------------------------
  // Who liked a post
  // ---------------------------------------------------------------------

  /** The entry a (user, like row) pair of the join contributes. */
  function Entry(u: Identity.User, l: Like): LikedBy
  {
    LikedBy(u.name, u.username, u.profileImage, l.id, l.postId)
  }

  /** The join of one like row with the users whose id it references. */
  function JoinUsers(users: seq<Identity.User>, l: Like): (r: seq<LikedBy>)
    ensures forall e :: e in r ==> exists u :: u in users && u.id == l.userId && e == Entry(u, l)
    ensures forall u :: u in users && u.id == l.userId ==> Entry(u, l) in r
  {
    if |users| == 0 then []
    else (if users[0].id == l.userId then [Entry(users[0], l)] else []) + JoinUsers(users[1..], l)
  }

  /**
   * `GET /interactions/{post_id}`: users joined with like rows on the user
   * id, restricted to rows of `post`. The order of the result is the one
   * this model happens to produce; the backend does not fix one.
   */
  function GetHowLiked(users: seq<Identity.User>, likes: seq<Like>, post: Uuid): (r: seq<LikedBy>)
    ensures forall e :: e in r ==>
      e.postId == post && exists u, l :: u in users && l in likes && l.postId == post && u.id == l.userId && e == Entry(u, l)
    ensures forall u, l :: u in users && l in likes && l.postId == post && u.id == l.userId ==> Entry(u, l) in r
  {
    if |likes| == 0 then []
    else (if likes[0].postId == post then JoinUsers(users, likes[0]) else []) + GetHowLiked(users, likes[1..], post)
  }

  /** The keys of the entries of a liker list. */
  function EntryIds(entries: seq<LikedBy>): seq<Uuid>
  {
    if |entries| == 0 then [] else [entries[0].likeId] + EntryIds(entries[1..])
  }

  /** The keys of the like rows of `post`. */
  function RowIdsFor(likes: seq<Like>, post: Uuid): (r: seq<Uuid>)
    ensures |r| == CountFor(likes, post)
  {
    if |likes| == 0 then []
    else (if likes[0].postId == post then [likes[0].id] else []) + RowIdsFor(likes[1..], post)
  }

  lemma {:induction false} EntryIdsAppend(a: seq<LikedBy>, b: seq<LikedBy>)
    ensures EntryIds(a + b) == EntryIds(a) + EntryIds(b)
  {
    if |a| > 0 {
      assert (a + b)[1..] == a[1..] + b;
      EntryIdsAppend(a[1..], b);
    } else {
      assert a + b == b;
    }
  }

  /** A row whose user does not exist joins with nobody. */
  lemma {:induction false} JoinUsersNone(users: seq<Identity.User>, l: Like)
    requires forall u :: u in users ==> u.id != l.userId
    ensures JoinUsers(users, l) == []
  {
    if |users| > 0 {
      assert users[0] in users;
      JoinUsersNone(users[1..], l);
    }
  }

  /** With unique user ids, a row whose user exists joins with exactly that user. */
  lemma {:induction false} JoinUsersOne(users: seq<Identity.User>, l: Like, u: Identity.User)
    requires Identity.UniqueUsers(users) && u in users && u.id == l.userId
    ensures JoinUsers(users, l) == [Entry(u, l)]
  {
    if users[0] == u {
      forall v | v in users[1..] ensures v.id != l.userId {
        var k :| 0 <= k < |users[1..]| && users[1..][k] == v;
        assert users[k + 1] == v;
      }
      JoinUsersNone(users[1..], l);
    } else {
      assert Identity.UniqueUsers(users[1..]) by {
        forall i, j | 0 <= i < j < |users[1..]|
          ensures users[1..][i].username != users[1..][j].username && users[1..][i].id != users[1..][j].id
        {
          assert users[1..][i] == users[i + 1] && users[1..][j] == users[j + 1];
        }
      }
      JoinUsersOne(users[1..], l, u);
    }
  }

  /**
   * With unique user ids and every like row pointing at an existing user,
   * the liker list has one entry per like row of the post: its keys are
   * exactly the keys of those rows, counted with multiplicity.
   */
  lemma {:induction false} HowLikedOnePerRow(users: seq<Identity.User>, likes: seq<Like>, post: Uuid)
    requires Identity.UniqueUsers(users)
    requires forall l :: l in likes ==> Identity.HasId(users, l.userId)
    ensures multiset(EntryIds(GetHowLiked(users, likes, post))) == multiset(RowIdsFor(likes, post))
    ensures |GetHowLiked(users, likes, post)| == CountFor(likes, post)
  {
    if |likes| > 0 {
      var l := likes[0];
      var head := if l.postId == post then JoinUsers(users, l) else [];
      assert l in likes;
      var u :| u in users && u.id == l.userId;
      JoinUsersOne(users, l, u);
      HowLikedOnePerRow(users, likes[1..], post);
      EntryIdsAppend(head, GetHowLiked(users, likes[1..], post));
      assert EntryIds(head) == if l.postId == post then [l.id] else [];
    }
    EntryIdsLength(GetHowLiked(users, likes, post));
  }

  lemma {:induction false} EntryIdsLength(entries: seq<LikedBy>)
    ensures |EntryIds(entries)| == |entries|
  {
    if |entries| > 0 {
      EntryIdsLength(entries[1..]);
    }
  }

  /**
   * In consistent tables, the liker list of a post is as long as its
   * counter says.
   */
  lemma HowLikedMatchesCounter(users: seq<Identity.User>, s: Tables, post: Uuid)
    requires Consistent(s) && post in s.likeCount
    requires Identity.UniqueUsers(users)
    requires forall l :: l in s.likes ==> Identity.HasId(users, l.userId)
    ensures |GetHowLiked(users, s.likes, post)| == s.likeCount[post]
  {
    HowLikedOnePerRow(users, s.likes, post);
  }

  lemma {:induction false} HowLikedAppend(users: seq<Identity.User>, a: seq<Like>, b: seq<Like>, post: Uuid)
    ensures GetHowLiked(users, a + b, post) == GetHowLiked(users, a, post) + GetHowLiked(users, b, post)
  {
    if |a| > 0 {
      assert (a + b)[0] == a[0] && (a + b)[1..] == a[1..] + b;
      HowLikedAppend(users, a[1..], b, post);
    } else {
      assert a + b == b;
    }
  }

  /** A post without like rows has nobody in its liker list. */
  lemma {:induction false} HowLikedNoRows(users: seq<Identity.User>, likes: seq<Like>, post: Uuid)
    requires CountFor(likes, post) == 0
    ensures GetHowLiked(users, likes, post) == []
    ensures forall k :: 0 <= k < |likes| ==> likes[k].postId != post
  {
    if |likes| > 0 {
      HowLikedNoRows(users, likes[1..], post);
      assert forall k :: 1 <= k < |likes| ==> likes[k] == likes[1..][k - 1];
    }
  }

  /** The liker-list entries of `likers`, the k-th with like key `ids[k]`. */
  function LikerEntries(likers: seq<Identity.User>, ids: seq<Uuid>, post: Uuid): seq<LikedBy>
    requires |ids| == |likers|
  {
    seq(|likers|, k requires 0 <= k < |likers| => LikedBy(likers[k].name, likers[k].username, likers[k].profileImage, ids[k], post))
  }

  lemma LikerEntriesCons(likers: seq<Identity.User>, ids: seq<Uuid>, post: Uuid)
    requires |ids| == |likers| > 0
    ensures LikerEntries(likers, ids, post)
         == [LikedBy(likers[0].name, likers[0].username, likers[0].profileImage, ids[0], post)]
            + LikerEntries(likers[1..], ids[1..], post)
  {
    var rest := LikerEntries(likers[1..], ids[1..], post);
    forall k | 1 <= k < |likers| ensures LikerEntries(likers, ids, post)[k] == rest[k - 1] {
      assert likers[1..][k - 1] == likers[k] && ids[1..][k - 1] == ids[k];
    }
  }

  /**
   * The liker list of freshly created rows of `post`, when the row of
   * `users[k]` joins with the user record `likers[k]` only: one entry per
   * row, in the rows' order.
   */
  lemma {:induction false} HowLikedNewRows(table: seq<Identity.User>, users: seq<Uuid>, post: Uuid, ids: seq<Uuid>, likers: seq<Identity.User>)
    requires Identity.UniqueUsers(table)
    requires |ids| == |users| && |likers| == |users|
    requires forall k :: 0 <= k < |users| ==> likers[k] in table && likers[k].id == users[k]
    decreases |users|
    ensures GetHowLiked(table, NewRows(users, post, ids), post) == LikerEntries(likers, ids, post)
  {
    var rows := NewRows(users, post, ids);
    if |users| > 0 {
      JoinUsersOne(table, rows[0], likers[0]);
      assert rows[1..] == NewRows(users[1..], post, ids[1..]);
      HowLikedNewRows(table, users[1..], post, ids[1..], likers[1..]);
      LikerEntriesCons(likers, ids, post);
    }
  }

  /**
   * When distinct users, with records `likers` in a user table with unique
   * ids, each like a post that nobody liked yet, the post's counter equals
   * their number and its liker list holds exactly one entry per user: the
   * user's name, username and profile image with the key of the row the
   * user's like created.
   */
  lemma FreshPostLikers(table: seq<Identity.User>, s: Tables, users: seq<Uuid>, post: Uuid, ids: seq<Uuid>, likers: seq<Identity.User>)
    requires Identity.UniqueUsers(table)
    requires |ids| == |users| && |likers| == |users|
    requires forall k :: 0 <= k < |users| ==> likers[k] in table && likers[k].id == users[k]
    requires Consistent(s) && post in s.likeCount && s.likeCount[post] == 0
    requires Distinct(users) && Distinct(ids)
    requires forall k :: 0 <= k < |ids| ==> !RowIdTaken(s.likes, ids[k])
    ensures var s' := ToggleEach(s, users, post, ids);
      && post in s'.likeCount && s'.likeCount[post] == |users|
      && multiset(GetHowLiked(table, s'.likes, post))
         == multiset(LikerEntries(likers, ids, post))
  {
    HowLikedNoRows(table, s.likes, post);
    ToggleEachLikes(s, users, post, ids);
    HowLikedAppend(table, s.likes, NewRows(users, post, ids), post);
    HowLikedNewRows(table, users, post, ids, likers);
  }
}
