/** The posts service: creating, listing, reading, updating and removing blog
    posts held in a table keyed by post id, with the rule that only a post's
    author or an admin may change or delete it. */
module Posts {
  import opened Http
  import opened Pagination

  /** The user entity a request carries. Its role is compared with the string
      "admin" as it is stored. */
  datatype Account = Account(id: string, email: string, role: string)

  /** A row of the posts table, with its author relation loaded. */
  datatype Post = Post(id: string, title: string, content: string, author: Account, createdAt: int)

  /** The body of a create request. */
  datatype CreatePostDto = CreatePostDto(title: string, content: string)

  /** The body of an update request: either field may be left out. */
  datatype UpdatePostDto = UpdatePostDto(title: Option<string>, content: Option<string>)

  /** What `findAll` resolves with: one page of posts and the count of all posts. */
  datatype PostPage = PostPage(posts: seq<Post>, total: nat)

  const ADMIN: string := "admin"
  const POST_NOT_FOUND: string := "Post not found"
  const UPDATE_FORBIDDEN: string := "You can only update your own posts"
  const DELETE_FORBIDDEN: string := "You can only delete your own posts"

  /** The owner-or-admin rule guarding update and remove. */
  predicate MayModify(post: Post, user: Account) {
    post.author.id == user.id || user.role == ADMIN
  }

  /** `Object.assign(post, dto)`: the fields the body carries overwrite the
      post's; nothing else about the post changes. */
  function Assign(post: Post, dto: UpdatePostDto): (p: Post)
    ensures p.(title := post.title, content := post.content) == post
    ensures p.title == dto.title.GetOr(post.title)
    ensures p.content == dto.content.GetOr(post.content)
  {
    var withTitle := if dto.title.Some? then post.(title := dto.title.value) else post;
    if dto.content.Some? then withTitle.(content := dto.content.value) else withTitle
  }

  /** Newest first: `createdAt` never increases along the sequence. */
  ghost predicate NewestFirst(s: seq<Post>) {
    forall i, j :: 0 <= i < j < |s| ==> s[j].createdAt <= s[i].createdAt
  }

  /** `s` lists every post of `store` exactly once. */
  ghost predicate Enumerates(s: seq<Post>, store: map<string, Post>) {
    && |s| == |store|
    && (forall i :: 0 <= i < |s| ==> s[i].id in store && store[s[i].id] == s[i])
    && (forall i, j :: 0 <= i < j < |s| ==> s[i].id != s[j].id)
    && (forall id :: id in store ==> store[id] in s)
  }

  class PostsService {
    /** The posts table, keyed by post id. */
    var posts: map<string, Post>

    /** Every post is filed under its own id. */
    ghost predicate Valid()
      reads this
    {
      forall id :: id in posts ==> posts[id].id == id
    }

    constructor ()
      ensures Valid() && posts == map[]
    {
      posts := map[];
    }

    /** `create`: stores a new post with the body's title and content, written
        by the calling user. `id` and `now` are what the database assigns. */
    method Create(dto: CreatePostDto, author: Account, id: string, now: int) returns (post: Post)
      requires Valid()
      requires id !in posts
      modifies this
      ensures Valid()
      ensures post == Post(id, dto.title, dto.content, author, now)
      ensures posts == old(posts)[id := post]
    {
      post := Post(id, dto.title, dto.content, author, now);
      posts := posts[id := post];
    }

    /** `findOne`: the stored post, or `NotFound`. */
    function FindOne(id: string): (r: Result<Post>)
      reads this
      ensures r.Ok? <==> id in posts
      ensures r.Ok? ==> r.value == posts[id]
      ensures r.Err? ==> r.error == NotFound(POST_NOT_FOUND) && r.error.Status() == 404
    {
      if id in posts then Ok(posts[id]) else Err(NotFound(POST_NOT_FOUND))
    }

    /** `update`: a missing post is `NotFound` before any authorisation check; a
        caller who is neither the author nor an admin is `Forbidden`; both leave
        the table alone. Otherwise only the target post changes, by `Assign`. */
    method Update(id: string, dto: UpdatePostDto, user: Account) returns (r: Result<Post>)
      requires Valid()
      modifies this
      ensures Valid()
      ensures id !in old(posts) ==> r == Err(NotFound(POST_NOT_FOUND)) && posts == old(posts)
      ensures id in old(posts) && !MayModify(old(posts)[id], user) ==>
        r == Err(Forbidden(UPDATE_FORBIDDEN)) && posts == old(posts)
      ensures id in old(posts) && MayModify(old(posts)[id], user) ==>
        && r == Ok(Assign(old(posts)[id], dto))
        && posts == old(posts)[id := r.value]
    {
      var found := FindOne(id);
      if found.Err? {
        return Err(found.error);
      }
      var post := found.value;
      if post.author.id != user.id && user.role != ADMIN {
        return Err(Forbidden(UPDATE_FORBIDDEN));
      }
      post := Assign(post, dto);
      posts := posts[id := post];
      r := Ok(post);
    }

    /** `remove`: the same two failures as `update`, in the same order;
        otherwise exactly the target post leaves the table. */
    method Remove(id: string, user: Account) returns (r: Result<()>)
      requires Valid()
      modifies this
      ensures Valid()
      ensures id !in old(posts) ==> r == Err(NotFound(POST_NOT_FOUND)) && posts == old(posts)
      ensures id in old(posts) && !MayModify(old(posts)[id], user) ==>
        r == Err(Forbidden(DELETE_FORBIDDEN)) && posts == old(posts)
      ensures id in old(posts) && MayModify(old(posts)[id], user) ==>
        r == Ok(()) && posts == old(posts) - {id}
    {
      var found := FindOne(id);
      if found.Err? {
        return Err(found.error);
      }
      var post := found.value;
      if post.author.id != user.id && user.role != ADMIN {
        return Err(Forbidden(DELETE_FORBIDDEN));
      }
      posts := posts - {post.id};
      r := Ok(());
    }

    /** The id, among `candidates`, of a post with the latest `createdAt`
        (the database breaks ties as it likes; so does this choice). */
    method NewestAmong(candidates: set<string>) returns (newest: string)
      requires candidates != {} && candidates <= posts.Keys
      ensures newest in candidates
      ensures forall id :: id in candidates ==> posts[id].createdAt <= posts[newest].createdAt
    {
      newest :| newest in candidates;
      var unseen := candidates - {newest};
      while unseen != {}
        invariant newest in candidates && unseen <= candidates
        invariant forall id :: id in candidates && id !in unseen ==> posts[id].createdAt <= posts[newest].createdAt
        decreases unseen
      {
        var id :| id in unseen;
        if posts[newest].createdAt < posts[id].createdAt {
          newest := id;
        }
        unseen := unseen - {id};
      }
    }

    /** `order: { createdAt: 'DESC' }`: every post once, newest first. */
    method ByNewest() returns (ordered: seq<Post>)
      requires Valid()
      ensures Enumerates(ordered, posts)
      ensures NewestFirst(ordered)
    {
      ordered := [];
      var remaining := posts.Keys;
      while remaining != {}
        invariant remaining <= posts.Keys
        invariant |ordered| + |remaining| == |posts|
        invariant forall i :: 0 <= i < |ordered| ==>
          ordered[i].id in posts && ordered[i].id !in remaining && posts[ordered[i].id] == ordered[i]
        invariant forall i, j :: 0 <= i < j < |ordered| ==> ordered[i].id != ordered[j].id
        invariant forall id :: id in posts && id !in remaining ==> posts[id] in ordered
        invariant NewestFirst(ordered)
        invariant |ordered| > 0 ==>
          forall id :: id in remaining ==> posts[id].createdAt <= ordered[|ordered| - 1].createdAt
        decreases remaining
      {
        var next := NewestAmong(remaining);
        ordered := ordered + [posts[next]];
        remaining := remaining - {next};
      }
    }

    /** `findAll`: page `page` (default 1) of `limit` posts (default 10) of the
        newest-first listing, skipping `(page - 1) * limit` posts, with the
        count of all posts. */
    method FindAll(page: Option<int>, limit: Option<int>) returns (r: PostPage)
      requires Valid()
      requires page.GetOr(DEFAULT_PAGE) >= 1 && limit.GetOr(DEFAULT_LIMIT) >= 1
      ensures r.total == |posts|
      ensures |r.posts| <= limit.GetOr(DEFAULT_LIMIT)
      ensures exists ordered ::
        && Enumerates(ordered, posts)
        && NewestFirst(ordered)
        && r.posts == Window(ordered, Offset(page.GetOr(DEFAULT_PAGE), limit.GetOr(DEFAULT_LIMIT)), limit.GetOr(DEFAULT_LIMIT))
    {
      var p := page.GetOr(DEFAULT_PAGE);
      var l := limit.GetOr(DEFAULT_LIMIT);
      var ordered := ByNewest();
      r := PostPage(Window(ordered, Offset(p, l), l), |posts|);
    }
  }

  /** Applying the same update body twice changes nothing more; an empty body
      changes nothing at all. */
  lemma AssignIdempotent(post: Post, dto: UpdatePostDto)
    ensures Assign(Assign(post, dto), dto) == Assign(post, dto)
    ensures Assign(post, UpdatePostDto(None, None)) == post
  {
  }

  /** A listed post (and `Enumerates` lists every stored post) is shown on
      the page of its position `k` in the listing, page `k / limit + 1` ... */
  lemma {:induction false} PostOnItsPage(ordered: seq<Post>, p: Post, limit: int)
    requires limit >= 1 && p in ordered
    ensures p in Window(ordered, Offset(IndexOf(ordered, p) / limit + 1, limit), limit)
  {
    var k := IndexOf(ordered, p);
    PositionOnItsPage(ordered, limit, k);
    var skip := Offset(k / limit + 1, limit);
    assert Window(ordered, skip, limit)[k - skip] == p;
  }

  /** ... and, when no post is listed twice (as in a listing of a store),
      on no other page. */
  lemma {:induction false} PostOnNoOtherPage(ordered: seq<Post>, p: Post, limit: int, page: int, i: int)
    requires NoRepeats(ordered)
    requires limit >= 1 && page >= 1
    requires 0 <= i < |Window(ordered, Offset(page, limit), limit)|
    requires Window(ordered, Offset(page, limit), limit)[i] == p
    ensures p in ordered
    ensures page == IndexOf(ordered, p) / limit + 1
  {
    var k := IndexOf(ordered, p);
    PageHoldsOnlyItsPositions(ordered, page, limit, i);
    assert ordered[Offset(page, limit) + i] == ordered[k];
  }

  /** The position of a post that occurs in `s`. */
  function IndexOf(s: seq<Post>, p: Post): (k: nat)
    requires p in s
    ensures k < |s| && s[k] == p
  {
    if s[0] == p then 0 else 1 + IndexOf(s[1..], p)
  }

  /** No post occurs twice in `s`. */
  ghost predicate NoRepeats(s: seq<Post>) {
    forall i, j :: 0 <= i < j < |s| ==> s[i] != s[j]
  }

  /** A listing of a store repeats no post, since the store's ids are distinct. */
  lemma ListingHasNoRepeats(ordered: seq<Post>, store: map<string, Post>)
    requires Enumerates(ordered, store)
    ensures NoRepeats(ordered)
  {
    forall i, j | 0 <= i < j < |ordered| ensures ordered[i] != ordered[j] {
      assert ordered[i].id != ordered[j].id;
    }
  }

  /** The order by `createdAt` alone does not fix a listing: two posts created
      at the same instant may be listed either way round, so two `findAll`
      calls may page them differently. */
  lemma TiedPostsListedEitherWay(a: Post, b: Post)
    requires a.id != b.id && a.createdAt == b.createdAt
    ensures Enumerates([a, b], map[a.id := a, b.id := b]) && NewestFirst([a, b])
    ensures Enumerates([b, a], map[a.id := a, b.id := b]) && NewestFirst([b, a])
    ensures Window([a, b], Offset(1, 1), 1) == [a] && Window([b, a], Offset(2, 1), 1) == [a]
  {
    var store := map[a.id := a, b.id := b];
    assert store.Keys == {a.id, b.id};
    assert |store| == 2;
  }

  /** A client of the service: an author, a stranger and an admin acting on one post. */
  method OwnershipScenario(author: Account, stranger: Account, admin: Account)
    requires author.id != stranger.id && stranger.role != ADMIN && admin.role == ADMIN
  {
    var svc := new PostsService();
    var post := svc.Create(CreatePostDto("t", "c"), author, "p1", 0);
    var missing := svc.Update("p2", UpdatePostDto(Some("x"), None), stranger);
    assert missing.Err? && missing.error.Status() == 404;
    var denied := svc.Remove("p1", stranger);
    assert denied.Err? && denied.error.Status() == 403;
    assert svc.posts == map["p1" := post];
    var edited := svc.Update("p1", UpdatePostDto(Some("x"), None), admin);
    assert edited == Ok(Post("p1", "x", "c", author, 0));
    var removed := svc.Remove("p1", author);
    assert removed == Ok(()) && svc.posts == map[];
  }
}
