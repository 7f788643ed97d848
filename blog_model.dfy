/** The Blog record and the constraints its schema declares. */
module BlogModel {
  import opened Common

  type BlogId = nat

  const TITLE_MAX_LENGTH := 150
  const COMMENT_MAX_LENGTH := 500

  /** An engagement counter (likes, dislikes or views): a count next to the ids
      of the users behind it. The schema defaults it to a count of 0 and no users. */
  datatype Counter = Counter(count: int, users: seq<UserId>)

  const EMPTY_COUNTER := Counter(0, [])

  /** One embedded comment; createdAt is the schema's `Date.now` default. */
  datatype Comment = Comment(user: UserId, text: string, createdAt: Time)

  /** A stored blog. Array paths (categories, tags, comments, the user lists)
      always hold an array: the object mapper gives them an empty array by default. */
  datatype Blog = Blog(
    title: string,
    content: string,
    author: UserId,
    categories: seq<string>,
    tags: seq<string>,
    coverImage: Option<string>,
    likes: Counter,
    dislikes: Counter,
    comments: seq<Comment>,
    views: Counter,
    isPublished: bool,
    publishedAt: Option<Time>)

  /** The comment sub-schema: the text is required (so not empty) and at most
      500 UTF-16 code units (`JsLength`). */
  predicate ValidComment(c: Comment)
  {
    c.text != "" && JsLength(c.text) <= COMMENT_MAX_LENGTH
  }

  /** What the schema's validators accept when a blog is saved: a required
      title of at most 150 UTF-16 code units, required content, counts that are not
      negative, and valid comments. (author and categories are required too;
      in this model every blog has an author, and an array is always present.) */
  predicate ValidBlog(b: Blog)
  {
    && b.title != "" && JsLength(b.title) <= TITLE_MAX_LENGTH
    && b.content != ""
    && b.likes.count >= 0
    && b.dislikes.count >= 0
    && b.views.count >= 0
    && forall i :: 0 <= i < |b.comments| ==> ValidComment(b.comments[i])
  }

  /** A counter whose count is the number of its users, none of them twice. */
  predicate Tallied(c: Counter)
  {
    c.count == |c.users| && NoDup(c.users)
  }

  /** The invariant the engagement handlers keep (no validator checks it):
      every counter is tallied and nobody both likes and dislikes the blog. */
  predicate EngagementOk(b: Blog)
  {
    && Tallied(b.likes)
    && Tallied(b.dislikes)
    && Tallied(b.views)
    && forall u :: u in b.likes.users ==> u !in b.dislikes.users
  }

  /** Under the engagement invariant no count is negative, so the schema's
      `min: 0` validators can never refuse a blog that keeps it. */
  lemma CountsNonNegative(b: Blog)
    requires EngagementOk(b)
    ensures b.likes.count >= 0 && b.dislikes.count >= 0 && b.views.count >= 0
  {
  }

  /** A blog as the schema's defaults build it: no likes, dislikes, views or comments. */
  function Fresh(title: string, content: string, author: UserId, categories: seq<string>,
                 tags: seq<string>, coverImage: Option<string>, isPublished: bool,
                 publishedAt: Option<Time>): (b: Blog)
    ensures EngagementOk(b)
    ensures b.likes.users == [] && b.dislikes.users == [] && b.views.users == [] && b.comments == []
  {
    Blog(title, content, author, categories, tags, coverImage,
         EMPTY_COUNTER, EMPTY_COUNTER, [], EMPTY_COUNTER, isPublished, publishedAt)
  }

  /** A fresh blog breaks no validator except possibly those on title and content. */
  lemma FreshValid(title: string, content: string, author: UserId, categories: seq<string>,
                   tags: seq<string>, coverImage: Option<string>, isPublished: bool,
                   publishedAt: Option<Time>)
    ensures ValidBlog(Fresh(title, content, author, categories, tags, coverImage, isPublished, publishedAt))
            <==> title != "" && JsLength(title) <= TITLE_MAX_LENGTH && content != ""
  {
  }

  /** The title limit counts UTF-16 code units: a title of more than 75
      characters from outside the Basic Multilingual Plane (emoji, say) is too
      long, though it has fewer than 150 characters. */
  lemma AstralTitleTooLong(title: string, content: string, author: UserId, categories: seq<string>,
                           tags: seq<string>, coverImage: Option<string>, isPublished: bool,
                           publishedAt: Option<Time>)
    requires |title| > TITLE_MAX_LENGTH / 2
    requires forall i :: 0 <= i < |title| ==> title[i] >= '\U{10000}'
    ensures !ValidBlog(Fresh(title, content, author, categories, tags, coverImage, isPublished, publishedAt))
  {
    JsLengthAstral(title);
  }
}
