/** What the view, like, unlike, dislike and remove-dislike handlers do to a loaded
    blog, and the per-(blog, user) state machine those four like/dislike handlers form. */
module BlogEngagement {
  import opened Common
  import opened BlogModel

  const ALREADY_VIEWED := Reply(400, "You have already viewed this blog")
  const ALREADY_LIKED := Reply(400, "You have already liked this blog")
  const NOT_LIKED := Reply(400, "You haven't liked this blog yet")
  const ALREADY_DISLIKED := Reply(400, "You have already disliked this blog")
  const NOT_DISLIKED := Reply(400, "You haven't disliked this blog yet")

  /** The result of a handler's checks and edits on the loaded blog: the edited
      blog that it goes on to save, or the reply with which it stops before saving. */
  datatype Outcome = Accepted(blog: Blog) | Rejected(reply: Reply)

  /** `count += 1` together with `users.push(u)`. */
  function Added(c: Counter, u: UserId): Counter
  {
    Counter(c.count + 1, c.users + [u])
  }

  /** `users = users.filter(...)` together with `count -= 1`. */
  function Removed(c: Counter, u: UserId): Counter
  {
    Counter(c.count - 1, Without(c.users, u))
  }

  /** Two blogs that differ at most in their likes, dislikes and views. */
  predicate SameBesidesEngagement(a: Blog, b: Blog)
  {
    a.(likes := b.likes, dislikes := b.dislikes, views := b.views) == b
  }

  /** incrementViews (controllers/blog.controller.js:179-186). */
  function View(b: Blog, u: UserId): (r: Outcome)
    ensures r.Accepted? <==> u !in b.views.users
    ensures r.Rejected? ==> r.reply == ALREADY_VIEWED
    ensures r.Accepted? ==> && r.blog.views.count == b.views.count + 1
                            && r.blog.views.users == b.views.users + [u]
                            && r.blog.likes == b.likes && r.blog.dislikes == b.dislikes
                            && SameBesidesEngagement(r.blog, b)
  {
    if u in b.views.users then Rejected(ALREADY_VIEWED)
    else Accepted(b.(views := Added(b.views, u)))
  }

  /** addLike (controllers/blog.controller.js:211-225). A prior dislike is undone
      in memory first; when the like itself is then refused, that edit is never saved. */
  function Like(b: Blog, u: UserId): (r: Outcome)
    ensures r.Accepted? <==> u !in b.likes.users
    ensures r.Rejected? ==> r.reply == ALREADY_LIKED
    ensures r.Accepted? ==> && u in r.blog.likes.users && u !in r.blog.dislikes.users
                            && r.blog.likes.count == b.likes.count + 1
                            && r.blog.dislikes.count == b.dislikes.count - (if u in b.dislikes.users then 1 else 0)
                            && r.blog.views == b.views
                            && SameBesidesEngagement(r.blog, b)
  {
    var loaded := if u in b.dislikes.users then b.(dislikes := Removed(b.dislikes, u)) else b;
    if u in loaded.likes.users then Rejected(ALREADY_LIKED)
    else Accepted(loaded.(likes := Added(loaded.likes, u)))
  }

  /** unLike (controllers/blog.controller.js:253-259). */
  function Unlike(b: Blog, u: UserId): (r: Outcome)
    ensures r.Accepted? <==> u in b.likes.users
    ensures r.Rejected? ==> r.reply == NOT_LIKED
    ensures r.Accepted? ==> && u !in r.blog.likes.users
                            && r.blog.likes.count == b.likes.count - 1
                            && (forall v :: v in r.blog.likes.users <==> v in b.likes.users && v != u)
                            && r.blog.dislikes == b.dislikes && r.blog.views == b.views
                            && SameBesidesEngagement(r.blog, b)
  {
    if u !in b.likes.users then Rejected(NOT_LIKED)
    else Accepted(b.(likes := Removed(b.likes, u)))
  }

  /** dislikeBlog (controllers/blog.controller.js:288-302): the mirror image of Like. */
  function Dislike(b: Blog, u: UserId): (r: Outcome)
    ensures r.Accepted? <==> u !in b.dislikes.users
    ensures r.Rejected? ==> r.reply == ALREADY_DISLIKED
    ensures r.Accepted? ==> && u in r.blog.dislikes.users && u !in r.blog.likes.users
                            && r.blog.dislikes.count == b.dislikes.count + 1
                            && r.blog.likes.count == b.likes.count - (if u in b.likes.users then 1 else 0)
                            && r.blog.views == b.views
                            && SameBesidesEngagement(r.blog, b)
  {
    var loaded := if u in b.likes.users then b.(likes := Removed(b.likes, u)) else b;
    if u in loaded.dislikes.users then Rejected(ALREADY_DISLIKED)
    else Accepted(loaded.(dislikes := Added(loaded.dislikes, u)))
  }

  /** removeDislike (controllers/blog.controller.js:332-338). */
  function RemoveDislike(b: Blog, u: UserId): (r: Outcome)
    ensures r.Accepted? <==> u in b.dislikes.users
    ensures r.Rejected? ==> r.reply == NOT_DISLIKED
    ensures r.Accepted? ==> && u !in r.blog.dislikes.users
                            && r.blog.dislikes.count == b.dislikes.count - 1
                            && (forall v :: v in r.blog.dislikes.users <==> v in b.dislikes.users && v != u)
                            && r.blog.likes == b.likes && r.blog.views == b.views
                            && SameBesidesEngagement(r.blog, b)
  {
    if u !in b.dislikes.users then Rejected(NOT_DISLIKED)
    else Accepted(b.(dislikes := Removed(b.dislikes, u)))
  }

  // ---------------------------------------------------------------------------
  // The invariant: every accepted engagement request keeps EngagementOk.

  lemma AddedTallied(c: Counter, u: UserId)
    requires Tallied(c) && u !in c.users
    ensures Tallied(Added(c, u))
  {
    AppendNoDup(c.users, u);
  }

  lemma RemovedTallied(c: Counter, u: UserId)
    requires Tallied(c) && u in c.users
    ensures Tallied(Removed(c, u))
  {
    WithoutDropsOne(c.users, u);
    WithoutNoDup(c.users, u);
  }

  lemma ViewKeepsInvariant(b: Blog, u: UserId)
    requires EngagementOk(b) && View(b, u).Accepted?
    ensures EngagementOk(View(b, u).blog)
  {
    AddedTallied(b.views, u);
  }

  lemma LikeKeepsInvariant(b: Blog, u: UserId)
    requires EngagementOk(b) && Like(b, u).Accepted?
    ensures EngagementOk(Like(b, u).blog)
  {
    if u in b.dislikes.users {
      RemovedTallied(b.dislikes, u);
    }
    AddedTallied(b.likes, u);
  }

  lemma UnlikeKeepsInvariant(b: Blog, u: UserId)
    requires EngagementOk(b) && Unlike(b, u).Accepted?
    ensures EngagementOk(Unlike(b, u).blog)
  {
    RemovedTallied(b.likes, u);
  }

  lemma DislikeKeepsInvariant(b: Blog, u: UserId)
    requires EngagementOk(b) && Dislike(b, u).Accepted?
    ensures EngagementOk(Dislike(b, u).blog)
  {
    if u in b.likes.users {
      RemovedTallied(b.likes, u);
    }
    AddedTallied(b.dislikes, u);
  }

  lemma RemoveDislikeKeepsInvariant(b: Blog, u: UserId)
    requires EngagementOk(b) && RemoveDislike(b, u).Accepted?
    ensures EngagementOk(RemoveDislike(b, u).blog)
  {
    RemovedTallied(b.dislikes, u);
  }

  /** The filter drops every occurrence but the count goes down by one only, so
      without the no-duplicates half of the invariant an unlike breaks
      `count == |users|`: a like counted twice for one user is a witness. */
  lemma UnlikeNeedsNoDuplicates()
    ensures exists b: Blog, u: UserId ::
              && b.likes.count == |b.likes.users|
              && Unlike(b, u).Accepted?
              && Unlike(b, u).blog.likes.count != |Unlike(b, u).blog.likes.users|
  {
    var b := Fresh("t", "c", 0, [], [], None, false, None).(likes := Counter(2, [7, 7]));
    assert Without([7], 7) == [];
    assert Unlike(b, 7).blog.likes == Counter(1, []);
  }

  // ---------------------------------------------------------------------------
  // Views: a user counts once, and the view counter never goes down.

  /** After an accepted view by u, a second view by u is refused. */
  lemma ViewCountsOnce(b: Blog, u: UserId)
    requires View(b, u).Accepted?
    ensures View(View(b, u).blog, u) == Rejected(ALREADY_VIEWED)
  {
    assert u in View(b, u).blog.views.users;
  }

  /** No engagement handler removes a viewer or lowers the view count. */
  lemma ViewsMonotonic(b: Blog, u: UserId, a: Action)
    requires Perform(b, u, a).Accepted?
    ensures Perform(b, u, a).blog.views.count >= b.views.count
    ensures forall v :: v in b.views.users ==> v in Perform(b, u, a).blog.views.users
  {
  }

  // ---------------------------------------------------------------------------
  // The state machine.

  /** The relation of one user to one blog, derived from the two user lists. */
  datatype Engagement = Neutral | Liked | Disliked

  datatype Action = LikeAction | UnlikeAction | DislikeAction | RemoveDislikeAction | ViewAction

  function StateOf(b: Blog, u: UserId): Engagement
  {
    if u in b.likes.users then Liked
    else if u in b.dislikes.users then Disliked
    else Neutral
  }

  /** The transition table of the like/dislike state machine; None marks a
      request that is refused. A view leaves the like/dislike state alone and
      is never refused by it. */
  function Next(s: Engagement, a: Action): Option<Engagement>
  {
    match a
    case LikeAction => if s == Liked then None else Some(Liked)
    case UnlikeAction => if s == Liked then Some(Neutral) else None
    case DislikeAction => if s == Disliked then None else Some(Disliked)
    case RemoveDislikeAction => if s == Disliked then Some(Neutral) else None
    case ViewAction => Some(s)
  }

  /** Dispatch to the handler for an action. */
  function Perform(b: Blog, u: UserId, a: Action): Outcome
  {
    match a
    case LikeAction => Like(b, u)
    case UnlikeAction => Unlike(b, u)
    case DislikeAction => Dislike(b, u)
    case RemoveDislikeAction => RemoveDislike(b, u)
    case ViewAction => View(b, u)
  }

  /** Every engagement handler keeps the invariant. */
  lemma PerformKeepsInvariant(b: Blog, u: UserId, a: Action)
    requires EngagementOk(b) && Perform(b, u, a).Accepted?
    ensures EngagementOk(Perform(b, u, a).blog)
  {
    match a
    case LikeAction => LikeKeepsInvariant(b, u);
    case UnlikeAction => UnlikeKeepsInvariant(b, u);
    case DislikeAction => DislikeKeepsInvariant(b, u);
    case RemoveDislikeAction => RemoveDislikeKeepsInvariant(b, u);
    case ViewAction => ViewKeepsInvariant(b, u);
  }

  /** On a blog that keeps the invariant, the handlers implement the transition
      table exactly: they accept a request iff the table allows it, the acting
      user ends in the state the table names, and every other user keeps theirs. */
  lemma PerformFollowsTable(b: Blog, u: UserId, a: Action)
    requires EngagementOk(b)
    requires a != ViewAction
    ensures Perform(b, u, a).Accepted? <==> Next(StateOf(b, u), a).Some?
    ensures Perform(b, u, a).Accepted? ==>
              && StateOf(Perform(b, u, a).blog, u) == Next(StateOf(b, u), a).value
              && forall v :: v != u ==> StateOf(Perform(b, u, a).blog, v) == StateOf(b, v)
  {
    match a
    case LikeAction =>
    case UnlikeAction =>
    case DislikeAction =>
    case RemoveDislikeAction =>
  }

  /** Engagement never makes a valid blog fail a validator, so its save never fails. */
  lemma PerformKeepsSchema(b: Blog, u: UserId, a: Action)
    requires ValidBlog(b) && EngagementOk(b) && Perform(b, u, a).Accepted?
    ensures ValidBlog(Perform(b, u, a).blog)
  {
    PerformKeepsInvariant(b, u, a);
  }
}
