/** The blog handlers: the collection of stored blogs, the document a handler
    loads and edits in place, and the rules of create, update, delete and comment. */
module BlogController {
  import opened Common
  import opened BlogModel
  import opened BlogEngagement

  const BLOG_NOT_FOUND := Reply(404, "Blog not found")
  const NOT_AUTHORIZED_TO_UPDATE := Reply(403, "You are not authorized to update this blog")
  const NOT_AUTHORIZED_TO_DELETE := Reply(403, "You are not authorized to delete this blog")
  const CREATED := Reply(201, "Blog created successfully")
  const UPDATED := Reply(200, "Blog updated successfully")
  const DELETED := Reply(200, "Blog deleted successfully")
  const COMMENTED := Reply(200, "Comment added successfully")
  const VIEWED := Reply(200, "Blog view incremented and user tracked")
  const LIKED := Reply(200, "Blog liked successfully")
  const UNLIKED := Reply(200, "Blog unliked successfully")
  const DISLIKED := Reply(200, "Blog disliked successfully")
  const DISLIKE_REMOVED := Reply(200, "Removed dislike successfully")

  /** The fields of a create or update request body; None is a field the body leaves out. */
  datatype BlogInput = BlogInput(
    title: Option<string>,
    content: Option<string>,
    categories: Option<seq<string>>,
    tags: Option<seq<string>>,
    coverImage: Option<string>,
    isPublished: Option<bool>)

  /** The body field as the schema stores it: an absent string is treated like the
      empty one, which the `required` validator refuses just the same. */
  function Text(s: Option<string>): string
  {
    if s.Some? then s.value else ""
  }

  /** The blog createBlog asks the mapper to create (controllers/blog.controller.js:8-17),
      with the schema's defaults filled in. */
  function Created(author: UserId, input: BlogInput, now: Time): (b: Blog)
    ensures b.author == author
    ensures b.title == Text(input.title) && b.content == Text(input.content)
    ensures b.categories == (if input.categories.Some? then input.categories.value else [])
    ensures b.tags == (if input.tags.Some? then input.tags.value else [])
    ensures b.coverImage == input.coverImage
    ensures b.isPublished <==> input.isPublished == Some(true)
    ensures b.publishedAt.Some? <==> b.isPublished
    ensures b.publishedAt.Some? ==> b.publishedAt.value == now
    ensures EngagementOk(b) && b.likes.count == 0 && b.dislikes.count == 0 && b.views.count == 0
    ensures b.comments == []
    ensures ValidBlog(b) <==> Truthy(input.title) && JsLength(input.title.value) <= TITLE_MAX_LENGTH && Truthy(input.content)
  {
    var published := input.isPublished == Some(true);
    Fresh(Text(input.title), Text(input.content), author,
          if input.categories.Some? then input.categories.value else [],
          if input.tags.Some? then input.tags.value else [],
          input.coverImage,
          published,
          if published then Some(now) else None)
  }

  /** `a || fallback` for an array field: any array, even an empty one, is truthy. */
  function ArrayOr(a: Option<seq<string>>, fallback: seq<string>): seq<string>
  {
    if a.Some? then a.value else fallback
  }

  /** `x !== undefined ? x : fallback`. */
  function Given(x: Option<bool>, fallback: bool): bool
  {
    if x.Some? then x.value else fallback
  }

  /** The field merge of updateBlog (controllers/blog.controller.js:89-98). */
  function Merged(b: Blog, input: BlogInput, now: Time): (r: Blog)
  {
    var publishing := input.isPublished == Some(true);
    b.(title := Or(input.title, b.title),
       content := Or(input.content, b.content),
       categories := ArrayOr(input.categories, b.categories),
       tags := ArrayOr(input.tags, b.tags),
       coverImage := OptionalOr(input.coverImage, b.coverImage),
       isPublished := Given(input.isPublished, b.isPublished),
       publishedAt := if publishing && b.publishedAt.None? then Some(now) else b.publishedAt)
  }

  /** What the merge promises: a string field takes the sent value exactly when
      that value is non-empty and an array field takes any sent array, empty
      ones included; isPublished is replaced whenever the body carries it (false
      included); publishedAt is stamped only on the first publication; and the
      author, counters and comments are left alone. */
  lemma MergedFields(b: Blog, input: BlogInput, now: Time)
    ensures var r := Merged(b, input, now);
      && r.title == (if Truthy(input.title) then input.title.value else b.title)
      && r.content == (if Truthy(input.content) then input.content.value else b.content)
      && r.categories == (if input.categories.Some? then input.categories.value else b.categories)
      && r.tags == (if input.tags.Some? then input.tags.value else b.tags)
      && r.coverImage == (if Truthy(input.coverImage) then input.coverImage else b.coverImage)
      && (input.isPublished.Some? ==> r.isPublished == input.isPublished.value)
      && (input.isPublished.None? ==> r.isPublished == b.isPublished)
      && (r.publishedAt != b.publishedAt <==> input.isPublished == Some(true) && b.publishedAt.None?)
      && (r.publishedAt != b.publishedAt ==> r.publishedAt == Some(now))
      && r.author == b.author && r.likes == b.likes && r.dislikes == b.dislikes
      && r.views == b.views && r.comments == b.comments
  {
  }

  /** Sending the same update twice has the effect of sending it once, even at a later time. */
  lemma MergedIdempotent(b: Blog, input: BlogInput, now: Time, later: Time)
    ensures Merged(Merged(b, input, now), input, later) == Merged(b, input, now)
  {
  }

  /** A body without any of the fields changes nothing. */
  lemma MergedEmptyBody(b: Blog, now: Time)
    ensures Merged(b, BlogInput(None, None, None, None, None, None), now) == b
  {
  }

  /** updateBlog after the lookup: only the author may edit (controllers/blog.controller.js:84-98). */
  function Update(b: Blog, requester: UserId, input: BlogInput, now: Time): (r: Outcome)
    ensures r.Rejected? <==> requester != b.author
    ensures r.Rejected? ==> r.reply == NOT_AUTHORIZED_TO_UPDATE
    ensures r.Accepted? ==> r.blog.author == b.author && EngagementOk(r.blog) == EngagementOk(b)
  {
    if b.author != requester then Rejected(NOT_AUTHORIZED_TO_UPDATE)
    else Accepted(Merged(b, input, now))
  }

  /** addComment after the lookup (controllers/blog.controller.js:151-154): any
      authenticated user may comment; the comment goes at the end. */
  function Commented(b: Blog, u: UserId, comment: Option<string>, now: Time): (r: Blog)
    ensures |r.comments| == |b.comments| + 1
    ensures r.comments[..|b.comments|] == b.comments
    ensures r.comments[|b.comments|] == Comment(u, Text(comment), now)
    ensures r.(comments := b.comments) == b
  {
    b.(comments := b.comments + [Comment(u, Text(comment), now)])
  }

  /** A comment is saved exactly when its text passes the comment validators. */
  lemma CommentedValid(b: Blog, u: UserId, comment: Option<string>, now: Time)
    requires ValidBlog(b)
    ensures ValidBlog(Commented(b, u, comment, now))
            <==> Truthy(comment) && JsLength(comment.value) <= COMMENT_MAX_LENGTH
  {
    var r := Commented(b, u, comment, now);
    if Truthy(comment) && JsLength(comment.value) <= COMMENT_MAX_LENGTH {
      forall i | 0 <= i < |r.comments| ensures ValidComment(r.comments[i]) {
        if i < |b.comments| {
          assert r.comments[i] == b.comments[i];
        }
      }
    } else {
      assert !ValidComment(r.comments[|b.comments|]);
    }
  }

  // ---------------------------------------------------------------------------
  // The collection as a whole.

  /** The invariant of the stored blogs: each passes the validators and keeps
      the engagement invariant. */
  ghost predicate AllValid(blogs: map<BlogId, Blog>)
  {
    forall id :: id in blogs ==> ValidBlog(blogs[id]) && EngagementOk(blogs[id])
  }

  /** The end of a handler that has loaded blog `id`: a rejection answers without
      saving; an accepted edit is saved if it passes the validators (answer `ok`)
      and otherwise the save throws and the handler answers 500. */
  function Settle(blogs: map<BlogId, Blog>, id: BlogId, o: Outcome, ok: Reply): (Reply, map<BlogId, Blog>)
  {
    match o
    case Rejected(reply) => (reply, blogs)
    case Accepted(b) => if ValidBlog(b) then (ok, blogs[id := b]) else (SERVER_ERROR, blogs)
  }

  /** Settling changes at most blog `id`, and only with an edit that was accepted and saved. */
  lemma SettleChangesOnlyTarget(blogs: map<BlogId, Blog>, id: BlogId, o: Outcome, ok: Reply)
    requires id in blogs && ok.status == 200
    requires o.Rejected? ==> o.reply.status != 200
    ensures var (reply, after) := Settle(blogs, id, o, ok);
      && after.Keys == blogs.Keys
      && (forall other :: other in blogs && other != id ==> after[other] == blogs[other])
      && (reply != ok ==> after == blogs)
      && (reply == ok ==> o.Accepted? && after[id] == o.blog)
  {
  }

  /** An engagement request on a stored blog is answered with `ok` exactly when its
      handler accepts it: the save that follows never fails. */
  lemma EngagementSaveSucceeds(blogs: map<BlogId, Blog>, id: BlogId, u: UserId, a: Action, ok: Reply)
    requires AllValid(blogs) && id in blogs && ok.status == 200
    ensures Settle(blogs, id, Perform(blogs[id], u, a), ok).0 == ok <==> Perform(blogs[id], u, a).Accepted?
    ensures AllValid(Settle(blogs, id, Perform(blogs[id], u, a), ok).1)
  {
    var o := Perform(blogs[id], u, a);
    if o.Accepted? {
      PerformKeepsSchema(blogs[id], u, a);
      PerformKeepsInvariant(blogs[id], u, a);
    } else {
      assert o.reply.status == 400;
    }
  }

  /** The document a handler gets from `findById`: a copy of the stored blog whose
      paths the handler assigns one by one, and which only `save` writes back. */
  class BlogDocument {
    var title: string
    var content: string
    const author: UserId
    var categories: seq<string>
    var tags: seq<string>
    var coverImage: Option<string>
    var likes: Counter
    var dislikes: Counter
    var comments: seq<Comment>
    var views: Counter
    var isPublished: bool
    var publishedAt: Option<Time>
    /** updateBlog assigns this, but the schema declares no such path, so the
        mapper's strict mode keeps it out of what `save` writes. */
    var lastUpdatedBy: Option<UserId>

    /** The record `save` would write: the schema's paths. */
    function Value(): Blog
      reads this
    {
      Blog(title, content, author, categories, tags, coverImage,
           likes, dislikes, comments, views, isPublished, publishedAt)
    }

    constructor Load(b: Blog)
      ensures Value() == b && lastUpdatedBy == None
    {
      title, content, author := b.title, b.content, b.author;
      categories, tags, coverImage := b.categories, b.tags, b.coverImage;
      likes, dislikes, comments, views := b.likes, b.dislikes, b.comments, b.views;
      isPublished, publishedAt := b.isPublished, b.publishedAt;
      lastUpdatedBy := None;
    }

    /** The assignments of updateBlog (controllers/blog.controller.js:89-98), in order. */
    method MergeUpdate(requester: UserId, input: BlogInput, now: Time)
      modifies this
      ensures Value() == Merged(old(Value()), input, now)
      ensures lastUpdatedBy == Some(requester)
    {
      title := Or(input.title, title);
      content := Or(input.content, content);
      categories := ArrayOr(input.categories, categories);
      tags := ArrayOr(input.tags, tags);
      coverImage := OptionalOr(input.coverImage, coverImage);
      isPublished := Given(input.isPublished, isPublished);
      lastUpdatedBy := Some(requester);
      if input.isPublished == Some(true) && publishedAt.None? {
        publishedAt := Some(now);
      }
    }
  }

  /** The blogs collection, a map from id to stored blog. Each method is one
      handler run as one atomic step (controllers/blog.controller.js). */
  class BlogCollection {
    var blogs: map<BlogId, Blog>

    ghost predicate Valid()
      reads this
    {
      AllValid(blogs)
    }

    constructor ()
      ensures Valid() && blogs == map[]
    {
      blogs := map[];
    }

    /** `document.save()`: the validators run, then the document is written under its id. */
    method Save(id: BlogId, doc: BlogDocument) returns (saved: bool)
      modifies this
      ensures saved == ValidBlog(old(doc.Value()))
      ensures blogs == if saved then old(blogs)[id := old(doc.Value())] else old(blogs)
    {
      saved := ValidBlog(doc.Value());
      if saved {
        blogs := blogs[id := doc.Value()];
      }
    }

    /** createBlog; `id` is the fresh id the database assigns. */
    method CreateBlog(id: BlogId, author: UserId, input: BlogInput, now: Time) returns (reply: Reply)
      requires Valid() && id !in blogs
      modifies this
      ensures Valid()
      ensures var b := Created(author, input, now);
        (reply, blogs) == if ValidBlog(b) then (CREATED, old(blogs)[id := b]) else (SERVER_ERROR, old(blogs))
    {
      var doc := new BlogDocument.Load(Created(author, input, now));
      var saved := Save(id, doc);
      reply := if saved then CREATED else SERVER_ERROR;
    }

    method UpdateBlog(id: BlogId, requester: UserId, input: BlogInput, now: Time) returns (reply: Reply)
      requires Valid()
      modifies this
      ensures Valid()
      ensures id !in old(blogs) ==> reply == BLOG_NOT_FOUND && blogs == old(blogs)
      ensures id in old(blogs) ==>
                (reply, blogs) == Settle(old(blogs), id, Update(old(blogs)[id], requester, input, now), UPDATED)
    {
      if id !in blogs {
        return BLOG_NOT_FOUND;
      }
      var doc := new BlogDocument.Load(blogs[id]);
      if doc.author != requester {
        return NOT_AUTHORIZED_TO_UPDATE;
      }
      doc.MergeUpdate(requester, input, now);
      var saved := Save(id, doc);
      reply := if saved then UPDATED else SERVER_ERROR;
    }

    method DeleteBlog(id: BlogId, requester: UserId) returns (reply: Reply)
      requires Valid()
      modifies this
      ensures Valid()
      ensures id !in old(blogs) ==> reply == BLOG_NOT_FOUND && blogs == old(blogs)
      ensures id in old(blogs) && old(blogs)[id].author != requester ==>
                reply == NOT_AUTHORIZED_TO_DELETE && blogs == old(blogs)
      ensures id in old(blogs) && old(blogs)[id].author == requester ==>
                reply == DELETED && blogs == old(blogs) - {id}
    {
      if id !in blogs {
        return BLOG_NOT_FOUND;
      }
      var doc := new BlogDocument.Load(blogs[id]);
      if doc.author != requester {
        return NOT_AUTHORIZED_TO_DELETE;
      }
      blogs := blogs - {id};
      reply := DELETED;
    }

    method AddComment(id: BlogId, user: UserId, comment: Option<string>, now: Time) returns (reply: Reply)
      requires Valid()
      modifies this
      ensures Valid()
      ensures id !in old(blogs) ==> reply == BLOG_NOT_FOUND && blogs == old(blogs)
      ensures id in old(blogs) ==>
                (reply, blogs) == Settle(old(blogs), id, Accepted(Commented(old(blogs)[id], user, comment, now)), COMMENTED)
    {
      if id !in blogs {
        return BLOG_NOT_FOUND;
      }
      var doc := new BlogDocument.Load(blogs[id]);
      doc.comments := doc.comments + [Comment(user, Text(comment), now)];
      var saved := Save(id, doc);
      reply := if saved then COMMENTED else SERVER_ERROR;
    }

    method IncrementViews(id: BlogId, user: UserId) returns (reply: Reply)
      requires Valid()
      modifies this
      ensures Valid()
      ensures id !in old(blogs) ==> reply == BLOG_NOT_FOUND && blogs == old(blogs)
      ensures id in old(blogs) ==> (reply, blogs) == Settle(old(blogs), id, View(old(blogs)[id], user), VIEWED)
    {
      if id !in blogs {
        return BLOG_NOT_FOUND;
      }
      var doc := new BlogDocument.Load(blogs[id]);
      if user in doc.views.users {
        return ALREADY_VIEWED;
      }
      doc.views := doc.views.(count := doc.views.count + 1);
      doc.views := doc.views.(users := doc.views.users + [user]);
      EngagementSaveSucceeds(old(blogs), id, user, ViewAction, VIEWED);
      var saved := Save(id, doc);
      reply := if saved then VIEWED else SERVER_ERROR;
    }

    method AddLike(id: BlogId, user: UserId) returns (reply: Reply)
      requires Valid()
      modifies this
      ensures Valid()
      ensures id !in old(blogs) ==> reply == BLOG_NOT_FOUND && blogs == old(blogs)
      ensures id in old(blogs) ==> (reply, blogs) == Settle(old(blogs), id, Like(old(blogs)[id], user), LIKED)
    {
      if id !in blogs {
        return BLOG_NOT_FOUND;
      }
      var doc := new BlogDocument.Load(blogs[id]);
      if user in doc.dislikes.users {
        doc.dislikes := doc.dislikes.(users := Without(doc.dislikes.users, user));
        doc.dislikes := doc.dislikes.(count := doc.dislikes.count - 1);
      }
      if user in doc.likes.users {
        return ALREADY_LIKED;
      }
      doc.likes := doc.likes.(users := doc.likes.users + [user]);
      doc.likes := doc.likes.(count := doc.likes.count + 1);
      EngagementSaveSucceeds(old(blogs), id, user, LikeAction, LIKED);
      var saved := Save(id, doc);
      reply := if saved then LIKED else SERVER_ERROR;
    }

    method UnLike(id: BlogId, user: UserId) returns (reply: Reply)
      requires Valid()
      modifies this
      ensures Valid()
      ensures id !in old(blogs) ==> reply == BLOG_NOT_FOUND && blogs == old(blogs)
      ensures id in old(blogs) ==> (reply, blogs) == Settle(old(blogs), id, Unlike(old(blogs)[id], user), UNLIKED)
    {
      if id !in blogs {
        return BLOG_NOT_FOUND;
      }
      var doc := new BlogDocument.Load(blogs[id]);
      if user !in doc.likes.users {
        return NOT_LIKED;
      }
      doc.likes := doc.likes.(users := Without(doc.likes.users, user));
      doc.likes := doc.likes.(count := doc.likes.count - 1);
      EngagementSaveSucceeds(old(blogs), id, user, UnlikeAction, UNLIKED);
      var saved := Save(id, doc);
      reply := if saved then UNLIKED else SERVER_ERROR;
    }

    method DislikeBlog(id: BlogId, user: UserId) returns (reply: Reply)
      requires Valid()
      modifies this
      ensures Valid()
      ensures id !in old(blogs) ==> reply == BLOG_NOT_FOUND && blogs == old(blogs)
      ensures id in old(blogs) ==> (reply, blogs) == Settle(old(blogs), id, Dislike(old(blogs)[id], user), DISLIKED)
    {
      if id !in blogs {
        return BLOG_NOT_FOUND;
      }
      var doc := new BlogDocument.Load(blogs[id]);
      if user in doc.likes.users {
        doc.likes := doc.likes.(users := Without(doc.likes.users, user));
        doc.likes := doc.likes.(count := doc.likes.count - 1);
      }
      if user in doc.dislikes.users {
        return ALREADY_DISLIKED;
      }
      doc.dislikes := doc.dislikes.(users := doc.dislikes.users + [user]);
      doc.dislikes := doc.dislikes.(count := doc.dislikes.count + 1);
      EngagementSaveSucceeds(old(blogs), id, user, DislikeAction, DISLIKED);
      var saved := Save(id, doc);
      reply := if saved then DISLIKED else SERVER_ERROR;
    }

    method RemoveDislike(id: BlogId, user: UserId) returns (reply: Reply)
      requires Valid()
      modifies this
      ensures Valid()
      ensures id !in old(blogs) ==> reply == BLOG_NOT_FOUND && blogs == old(blogs)
      ensures id in old(blogs) ==>
                (reply, blogs) == Settle(old(blogs), id, BlogEngagement.RemoveDislike(old(blogs)[id], user), DISLIKE_REMOVED)
    {
      if id !in blogs {
        return BLOG_NOT_FOUND;
      }
      var doc := new BlogDocument.Load(blogs[id]);
      if user !in doc.dislikes.users {
        return NOT_DISLIKED;
      }
      doc.dislikes := doc.dislikes.(users := Without(doc.dislikes.users, user));
      doc.dislikes := doc.dislikes.(count := doc.dislikes.count - 1);
      EngagementSaveSucceeds(old(blogs), id, user, RemoveDislikeAction, DISLIKE_REMOVED);
      var saved := Save(id, doc);
      reply := if saved then DISLIKE_REMOVED else SERVER_ERROR;
    }
  }
}
