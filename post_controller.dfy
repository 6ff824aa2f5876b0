/**
 * Posts: creating a post, toggling the requester's like, and appending a
 * comment. A post's `likes` is a sequence of user ids that the like toggle
 * grows at the end or filters; its `comments` only ever grow.
 */
module PostController {
  import opened Common
  import opened Store

  /** `likes` with every occurrence of `u` filtered out, the rest kept in order. */
  function RemoveAll(s: seq<Id>, u: Id): (r: seq<Id>)
    ensures forall x :: x in r <==> x in s && x != u
    ensures |r| <= |s|
  {
    if s == [] then []
    else (if s[0] == u then [] else [s[0]]) + RemoveAll(s[1..], u)
  }

  /** `a` is obtained from `b` by deleting some entries, without reordering the others. */
  ghost predicate IsSubsequence(a: seq<Id>, b: seq<Id>)
    decreases |b|
  {
    if a == [] then true
    else if b == [] then false
    else if a[0] == b[0] then IsSubsequence(a[1..], b[1..])
    else IsSubsequence(a, b[1..])
  }

  /** The filter keeps the other ids in their original order. */
  lemma {:induction false} RemoveAllKeepsOrder(s: seq<Id>, u: Id)
    ensures IsSubsequence(RemoveAll(s, u), s)
    decreases |s|
  {
    if s != [] {
      RemoveAllKeepsOrder(s[1..], u);
      if s[0] != u {
        assert RemoveAll(s, u) == [s[0]] + RemoveAll(s[1..], u);
        assert ([s[0]] + RemoveAll(s[1..], u))[1..] == RemoveAll(s[1..], u);
      } else {
        assert RemoveAll(s, u) == RemoveAll(s[1..], u);
        SkipHead(RemoveAll(s[1..], u), s);
      }
    }
  }

  /** A subsequence of the tail is a subsequence of the whole. */
  lemma {:induction false} SkipHead(a: seq<Id>, b: seq<Id>)
    requires b != [] && IsSubsequence(a, b[1..])
    ensures IsSubsequence(a, b)
    decreases |b|, |a|
  {
    if a != [] && a[0] == b[0] {
      DropFirst(a, b[1..]);
    }
  }

  /** Dropping the first entry of a subsequence leaves a subsequence. */
  lemma {:induction false} DropFirst(a: seq<Id>, c: seq<Id>)
    requires a != [] && IsSubsequence(a, c)
    ensures IsSubsequence(a[1..], c)
    decreases |c|, |a|
  {
    if a[0] != c[0] {
      DropFirst(a, c[1..]);
    }
    SkipHead(a[1..], c);
  }

  /** Exactly the occurrences of `u` are removed: every other id keeps its multiplicity. */
  lemma {:induction false} RemoveAllCounts(s: seq<Id>, u: Id)
    ensures multiset(RemoveAll(s, u)) == multiset(s)[u := 0]
    decreases |s|
  {
    if s != [] {
      RemoveAllCounts(s[1..], u);
      assert s == [s[0]] + s[1..];
    }
  }

  /** Filtering an id that does not occur changes nothing. */
  lemma {:induction false} RemoveAllAbsent(s: seq<Id>, u: Id)
    requires u !in s
    ensures RemoveAll(s, u) == s
    decreases |s|
  {
    if s != [] {
      RemoveAllAbsent(s[1..], u);
      assert s == [s[0]] + s[1..];
    }
  }

  lemma {:induction false} RemoveAllAppend(a: seq<Id>, b: seq<Id>, u: Id)
    ensures RemoveAll(a + b, u) == RemoveAll(a, u) + RemoveAll(b, u)
    decreases |a|
  {
    if a != [] {
      assert (a + b)[1..] == a[1..] + b;
      RemoveAllAppend(a[1..], b, u);
    } else {
      assert a + b == b;
    }
  }

  lemma {:induction false} RemoveAllKeepsDistinct(s: seq<Id>, u: Id)
    requires NoDuplicates(s)
    ensures NoDuplicates(RemoveAll(s, u))
    decreases |s|
  {
    if s != [] {
      RemoveAllKeepsDistinct(s[1..], u);
      assert s[0] !in s[1..];
    }
  }

  /** The requester's like after `likePost`: filtered out when present, appended when not. */
  function ToggleLike(likes: seq<Id>, u: Id): seq<Id> {
    if u in likes then RemoveAll(likes, u) else likes + [u]
  }

  /** The toggle negates the requester's membership and leaves every other id's membership alone. */
  lemma ToggleFlipsMembership(likes: seq<Id>, u: Id, v: Id)
    ensures v in ToggleLike(likes, u) <==> (if v == u then u !in likes else v in likes)
  {
  }

  /**
   * Unliking removes every occurrence of the requester, keeps each other id
   * as often as before, and keeps the others in their original order.
   */
  lemma UnlikeRemovesRequester(likes: seq<Id>, u: Id)
    requires u in likes
    ensures u !in ToggleLike(likes, u)
    ensures multiset(ToggleLike(likes, u)) == multiset(likes)[u := 0]
    ensures IsSubsequence(ToggleLike(likes, u), likes)
  {
    RemoveAllCounts(likes, u);
    RemoveAllKeepsOrder(likes, u);
  }

  /** Liking appends the requester after the earlier likes, which stay as they were. */
  lemma LikeAppendsRequester(likes: seq<Id>, u: Id)
    requires u !in likes
    ensures |ToggleLike(likes, u)| == |likes| + 1
    ensures ToggleLike(likes, u)[..|likes|] == likes && ToggleLike(likes, u)[|likes|] == u
  {
  }

  /** Liking and then unliking a post the requester had not liked restores its likes exactly. */
  lemma ToggleTwiceRestores(likes: seq<Id>, u: Id)
    requires u !in likes
    ensures ToggleLike(ToggleLike(likes, u), u) == likes
  {
    RemoveAllAppend(likes, [u], u);
    RemoveAllAbsent(likes, u);
    assert RemoveAll([u], u) == [];
  }

  /** The toggle never makes a requester's like appear twice. */
  lemma TogglePreservesNoDuplicates(likes: seq<Id>, u: Id)
    requires NoDuplicates(likes)
    ensures NoDuplicates(ToggleLike(likes, u))
  {
    if u in likes {
      RemoveAllKeepsDistinct(likes, u);
    }
  }

  /** A post needs a truthy `content` or a truthy `image`. */
  function CreatePostCheck(content: Option<string>, image: Option<string>): (r: Check)
    ensures r.Pass? <==> Truthy(content) || Truthy(image)
    ensures r.Reject? ==> r == Reject(400, "Post must have content or image")
  {
    if !Truthy(content) && !Truthy(image) then Reject(400, "Post must have content or image")
    else Pass
  }

  /** Creates a post owned by the requester, or rejects it with nothing stored. */
  method CreatePost(db: Db, me: Id, content: Option<string>, image: Option<string>) returns (r: Response<Id>)
    requires db.Valid()
    modifies db
    ensures db.Valid()
    ensures unchanged(db`users, db`admins, db`chats, db`messages)
    ensures !Truthy(content) && !Truthy(image) ==>
      r == Err(400, "Post must have content or image") && db.posts == old(db.posts) && db.nextId == old(db.nextId)
    ensures Truthy(content) || Truthy(image) ==>
      && r == Ok(201, old(db.nextId))
      && old(db.nextId) !in old(db.posts)
      && db.posts == old(db.posts)[old(db.nextId) := Post(me, content, image, [], [])]
  {
    var check := CreatePostCheck(content, image);
    if check.Reject? {
      return Err(check.status, check.message);
    }
    var id := db.NewId();
    db.posts := db.posts[id := Post(me, content, image, [], [])];
    r := Ok(201, id);
  }

  /**
   * Toggles the requester's like on an existing post. A likes sequence that
   * already holds the requester more than once loses every occurrence; one
   * without duplicates stays without them.
   */
  method LikePost(db: Db, postId: Id, me: Id) returns (r: Response<Post>)
    requires db.Valid()
    modifies db
    ensures db.Valid()
    ensures unchanged(db`users, db`admins, db`chats, db`messages, db`nextId)
    ensures postId !in old(db.posts) ==> r == Err(404, "Post not found") && db.posts == old(db.posts)
    ensures postId in old(db.posts) ==>
      var was := old(db.posts)[postId];
      var now := was.(likes := ToggleLike(was.likes, me));
      r == Ok(200, now) && db.posts == old(db.posts)[postId := now]
    ensures postId in old(db.posts) && NoDuplicates(old(db.posts)[postId].likes) ==>
      NoDuplicates(db.posts[postId].likes)
  {
    if postId !in db.posts {
      return Err(404, "Post not found");
    }
    var post := db.posts[postId];
    if NoDuplicates(post.likes) {
      TogglePreservesNoDuplicates(post.likes, me);
    }
    if me in post.likes {
      post := post.(likes := RemoveAll(post.likes, me));
    } else {
      post := post.(likes := post.likes + [me]);
    }
    db.posts := db.posts[postId := post];
    r := Ok(200, post);
  }

  /**
   * Appends the requester's comment to an existing post. The comment text is
   * required by the post schema, so saving a comment without text fails and
   * stores nothing.
   */
  method AddComment(db: Db, postId: Id, me: Id, text: Option<string>, now: Time) returns (r: Response<Post>)
    requires db.Valid()
    modifies db
    ensures db.Valid()
    ensures unchanged(db`users, db`admins, db`chats, db`messages, db`nextId)
    ensures postId !in old(db.posts) ==> r == Err(404, "Post not found") && db.posts == old(db.posts)
    ensures postId in old(db.posts) && !Truthy(text) ==> r.Err? && r.status == 500 && db.posts == old(db.posts)
    ensures postId in old(db.posts) && Truthy(text) ==>
      var was := old(db.posts)[postId];
      var post := was.(comments := was.comments + [Comment(me, text.value, now)]);
      r == Ok(200, post) && db.posts == old(db.posts)[postId := post]
  {
    if postId !in db.posts {
      return Err(404, "Post not found");
    }
    if !Truthy(text) {
      return Err(500, "Post validation failed: comments.text is required");
    }
    var post := db.posts[postId];
    post := post.(comments := post.comments + [Comment(me, text.value, now)]);
    db.posts := db.posts[postId := post];
    r := Ok(200, post);
  }
}
