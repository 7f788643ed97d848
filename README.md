# Blog backend: request rules as a verified Dafny model

This project models the business rules of a small blogging backend (an Express
server over MongoDB). It covers what each request handler does to the stored
records, and what the record schemas accept. The database is a collection
value held by a class: a map from id to blog for blogs, and a sequence in
store order for categories and users. Each handler is one method that runs
as one atomic step on that collection.

- **Blogs** (`blog_model.dfy`, `blog_engagement.dfy`, `blog_controller.dfy`).
  - A blog carries three engagement counters: likes, dislikes and views. Each
    is a count next to a list of user ids.
  - A handler loads a *copy* of the stored blog (`BlogDocument`), assigns its
    fields step by step, and ends in `save`. The schema validators run at
    `save`. A failure there becomes the generic 500 reply and the store keeps
    its old value.
  - The like, unlike, dislike and remove-dislike handlers act as a state
    machine for each (blog, user) pair: Neutral, Liked or Disliked. It is
    proved that these handlers and the view handler keep the engagement
    invariant:
    - each count equals the length of its user list;
    - no user is in a list twice;
    - nobody is in both the likes and the dislikes list.
  - It is proved that the handlers follow the transition table exactly, and
    that a refused request changes nothing.
  - Update and delete are for the author only. Update merges fields by the
    JavaScript `||` rules. A comment is appended at the end.
- **Categories** (`category_model.dfy`, `category_controller.dfy`).
  - The schema's trim setter applies to the stored name and to the lookup
    value. Names are unique.
  - Delete answers 404 for a missing category before it checks the creator
    (403).
  - The list is a permutation of the store, ordered newest first.
- **Users** (`user_model.dfy`, `user_controller.dfy`).
  - Signup checks the email before the username.
  - Login runs its checks in a fixed order.
  - Update edits fields by its own rules. Get, list and delete have their
    404 rules.
  - The email pattern is decided by a first-`@` / last-`.` split. It is
    proved equivalent to reading the regular expression as a decomposition.
  - bcrypt is a pair of uninterpreted functions (`Hasher`). Where a proof
    needs bcrypt to be correct, the lemma assumes `Sound`, which states two
    properties of bcrypt: every hash is 60 characters long (`NewUserValid`
    relies on this for the password length rule), and `compare` accepts a
    password against its own hash (`LoginSucceeds`, `LoginNeedsRole`,
    `SignedUpUserLogsIn` and `UpdatedPasswordLogsIn` rely on this).

Clocks, random salts and database-assigned ids are parameters of the
operations that use them. All other I/O is left out.

Two orderings of checks decide which error a request gets:
- Login checks only the username and the password for presence. A request
  without a role is not answered 400 with the other missing fields: with
  correct credentials it reaches the role comparison and gets 403.
- Signup looks for a duplicate email before a duplicate username.

Authentication guards every blog and category route, and every user route
except signup and login (`routes/*.js`). In the model, the authenticated
identity is the `requester`/`user` parameter of the blog handlers.

## Model

| member | source | states |
|---|---|---|
| Common.JsLength | models/blog.model.js:8 | JavaScript's `length`, which the `minlength`/`maxlength` validators read: at least the number of characters and at most twice it, and equal to it iff no character lies outside the Basic Multilingual Plane (each such character counts as two UTF-16 code units) |
| Common.JsLengthAstral | models/blog.model.js:8 | a string made only of characters from U+10000 on has twice as many code units as characters |
| Common.Or | controllers/blog.controller.js:89-90 | JavaScript's logical-or fallback on a body string: the fallback unless the body value is present and non-empty, in which case that value |
| Common.FirstIndex | controllers/user.controller.js:67 | `findOne` on a collection in store order: the first position whose element matches the filter, and none iff no element matches |
| Common.Without | controllers/blog.controller.js:258 | the `filter` of a user-id array keeps exactly the ids different from the removed one and never grows the array |
| Common.WithoutAbsent | controllers/blog.controller.js:258 | proof helper for `WithoutDropsOne`: filtering out an id that is not in the array leaves the array unchanged |
| Common.WithoutDropsOne | controllers/blog.controller.js:258-259 | on a duplicate-free array holding the id, the filter removes exactly one element, matching the single `count -= 1` |
| Common.WithoutNoDup | controllers/blog.controller.js:337 | the filter keeps an array duplicate-free |
| Common.AppendNoDup | controllers/blog.controller.js:224 | pushing an id that is not yet in the array keeps it duplicate-free |
| BlogModel.ValidComment | models/blog.model.js:55-72 | definition of the comment validators: a comment is accepted iff its text is non-empty and at most 500 UTF-16 code units (its author is always present in the model) |
| BlogModel.ValidBlog | models/blog.model.js:5-85 | definition of the blog validators run at `save`: accepted iff the title is non-empty and at most 150 UTF-16 code units, the content is non-empty, the likes, dislikes and views counts are at least 0, and every comment is accepted; author and categories are always present in the model, and tags, cover image and the publication fields have no validator |
| BlogModel.CountsNonNegative | models/blog.model.js:29-34 | under the engagement invariant the likes, dislikes and views counts are all at least 0, as the `min: 0` validators require |
| BlogModel.Fresh | models/blog.model.js:29-85 | a blog built from the schema defaults has empty likes, dislikes and views lists, no comments, and keeps the engagement invariant |
| BlogModel.FreshValid | models/blog.model.js:5-13 | a freshly built blog passes the validators iff its title is non-empty and at most 150 UTF-16 code units and its content is non-empty |
| BlogModel.AstralTitleTooLong | models/blog.model.js:5-9 | a title of more than 75 characters from outside the Basic Multilingual Plane fails the 150 limit, though it has fewer than 150 characters |
| BlogEngagement.View | controllers/blog.controller.js:179-186 | the view is accepted iff the user has not viewed before; refused with "You have already viewed this blog"; when accepted the count goes up by one, the user is appended, and nothing else changes |
| BlogEngagement.Like | controllers/blog.controller.js:211-225 | accepted iff the user does not already like the blog; when accepted the user likes and does not dislike, the likes count goes up by one, the dislikes count goes down by one exactly when the user disliked before, and views and other fields are unchanged |
| BlogEngagement.Unlike | controllers/blog.controller.js:252-259 | accepted iff the user likes the blog; refused with "You haven't liked this blog yet"; when accepted every occurrence of the user leaves the likes list, the likes count drops by one, and the dislikes and views are untouched |
| BlogEngagement.Dislike | controllers/blog.controller.js:288-302 | the mirror image of Like: accepted iff the user does not already dislike; then the user dislikes only, and a prior like is undone |
| BlogEngagement.RemoveDislike | controllers/blog.controller.js:331-338 | accepted iff the user dislikes the blog; then every occurrence leaves the dislikes list, that count drops by one, and likes and views are untouched |
| BlogEngagement.AddedTallied | controllers/blog.controller.js:185-186 | `count += 1` with a push of a new id keeps the count equal to the length of a duplicate-free list |
| BlogEngagement.RemovedTallied | controllers/blog.controller.js:258-259 | filter plus `count -= 1` for a present id keeps the count equal to the length of a duplicate-free list |
| BlogEngagement.ViewKeepsInvariant | controllers/blog.controller.js:179-186 | an accepted view keeps the engagement invariant |
| BlogEngagement.LikeKeepsInvariant | controllers/blog.controller.js:211-225 | an accepted like keeps the engagement invariant, including mutual exclusion of likes and dislikes |
| BlogEngagement.UnlikeKeepsInvariant | controllers/blog.controller.js:252-259 | an accepted unlike keeps the engagement invariant |
| BlogEngagement.DislikeKeepsInvariant | controllers/blog.controller.js:288-302 | an accepted dislike keeps the engagement invariant |
| BlogEngagement.RemoveDislikeKeepsInvariant | controllers/blog.controller.js:331-338 | an accepted remove-dislike keeps the engagement invariant |
| BlogEngagement.UnlikeNeedsNoDuplicates | controllers/blog.controller.js:258-259 | without the no-duplicates half of the invariant, an unlike can break `count == length of users`: the filter removes all occurrences but the count drops by one |
| BlogEngagement.ViewCountsOnce | controllers/blog.controller.js:180-186 | after an accepted view by a user, the next view by the same user is refused |
| BlogEngagement.ViewsMonotonic | controllers/blog.controller.js:168-351 | no engagement handler lowers the view count or removes a viewer |
| BlogEngagement.StateOf | controllers/blog.controller.js:212-219 | definition: a user is Liked when in the likes list, else Disliked when in the dislikes list, else Neutral, as the handlers' `includes` tests read the lists |
| BlogEngagement.Next | controllers/blog.controller.js:200-351 | definition of the transition table: like is refused from Liked and otherwise leads to Liked; unlike is allowed only from Liked and leads to Neutral; dislike and remove-dislike are the mirror images on Disliked; a view keeps the state |
| BlogEngagement.Perform | controllers/blog.controller.js:168-351 | definition: dispatches an engagement request to View, Like, Unlike, Dislike or RemoveDislike, one per route handler |
| BlogEngagement.PerformKeepsInvariant | controllers/blog.controller.js:168-351 | every accepted engagement request keeps the engagement invariant |
| BlogEngagement.PerformFollowsTable | controllers/blog.controller.js:200-351 | on a blog that keeps the invariant, the like/dislike handlers accept exactly the transitions the Neutral/Liked/Disliked table allows, move the acting user to the state the table names, and leave every other user's state alone |
| BlogEngagement.PerformKeepsSchema | models/blog.model.js:29-85 | engagement never turns a valid blog into one the validators refuse |
| BlogController.Created | controllers/blog.controller.js:8-17 | the created blog stores the body's title, content, categories, tags and cover image (absent arrays become empty), has the authenticated author, is published iff the body says `isPublished: true`, has `publishedAt` set (to now) iff published, starts with zero counts and no comments, and is valid iff the title is non-empty and at most 150 UTF-16 code units and the content is non-empty |
| BlogController.Merged | controllers/blog.controller.js:89-98 | definition of updateBlog's field merge: `||` with the old value for title, content and cover image, the sent array if any for categories and tags, the sent `isPublished` if any, and `publishedAt` stamped with now when publishing a blog that has none |
| BlogController.MergedFields | controllers/blog.controller.js:89-98 | each field exactly: title, content and cover image take the sent value iff it is non-empty, otherwise keep the old one; categories and tags take any sent array, empty included; `isPublished` takes any sent value, `false` included; `publishedAt` is stamped (to now) iff publishing a blog that never had one; author, counters and comments never change |
| BlogController.MergedIdempotent | controllers/blog.controller.js:89-98 | applying the same update body twice, even later, equals applying it once |
| BlogController.MergedEmptyBody | controllers/blog.controller.js:89-98 | an update body without any of the fields leaves the blog unchanged |
| BlogController.Update | controllers/blog.controller.js:84-98 | refused with 403 iff the requester is not the author; an accepted update keeps the author and the engagement invariant |
| BlogController.Commented | controllers/blog.controller.js:151-154 | exactly one comment by the user is appended at the end; earlier comments and every other field are unchanged |
| BlogController.CommentedValid | models/blog.model.js:55-72 | a valid blog with the new comment is still valid iff the comment text is non-empty and at most 500 UTF-16 code units |
| BlogController.Settle | controllers/blog.controller.js:100-109 | definition of a handler's ending: a refusal answers its reply and saves nothing; an accepted edit is stored under the loaded id with the success reply if it passes ValidBlog, and otherwise the failed `save` gives 500 with the store unchanged |
| BlogController.SettleChangesOnlyTarget | controllers/blog.controller.js:100 | finishing a handler changes at most the loaded blog, and only when its edit was accepted and saved; every other reply leaves the store unchanged |
| BlogController.EngagementSaveSucceeds | controllers/blog.controller.js:188 | on a valid store, an engagement request succeeds iff its handler accepts it (the save never fails), and the store stays valid |
| BlogController.BlogDocument.Load | controllers/blog.controller.js:77 | `findById` hands out a document holding the stored blog, with no `lastUpdatedBy` |
| BlogController.BlogDocument.MergeUpdate | controllers/blog.controller.js:89-98 | the assignments made one by one leave the document equal to the merge of its old value, with `lastUpdatedBy` set to the requester |
| BlogController.BlogCollection.Save | controllers/blog.controller.js:100 | `save` writes the document iff it passes the validators |
| BlogController.BlogCollection.CreateBlog | controllers/blog.controller.js:3-27 | a valid new blog is stored under its fresh id with reply 201, otherwise 500 and no change; the store stays valid |
| BlogController.BlogCollection.UpdateBlog | controllers/blog.controller.js:71-110 | 404 for a missing blog before any ownership check, 403 for a non-author, otherwise the merged blog is saved or 500; the store stays valid |
| BlogController.BlogCollection.DeleteBlog | controllers/blog.controller.js:113-136 | 404 for a missing blog, 403 for a non-author with nothing deleted, otherwise exactly that blog is removed |
| BlogController.BlogCollection.AddComment | controllers/blog.controller.js:139-166 | 404 for a missing blog, otherwise the blog with the appended comment is saved (500 if the comment is invalid) |
| BlogController.BlogCollection.IncrementViews | controllers/blog.controller.js:168-198 | 404 for a missing blog, otherwise the store becomes what View decides, with a refusal saving nothing |
| BlogController.BlogCollection.AddLike | controllers/blog.controller.js:200-237 | 404 for a missing blog, otherwise the store becomes what Like decides; the in-memory dislike removal of a refused like is never saved |
| BlogController.BlogCollection.UnLike | controllers/blog.controller.js:240-272 | 404 for a missing blog, otherwise the store becomes what Unlike decides |
| BlogController.BlogCollection.DislikeBlog | controllers/blog.controller.js:276-315 | 404 for a missing blog, otherwise the store becomes what Dislike decides |
| BlogController.BlogCollection.RemoveDislike | controllers/blog.controller.js:319-351 | 404 for a missing blog, otherwise the store becomes what RemoveDislike decides |
| CategoryModel.ValidCategory | models/category.model.js:5-15 | definition of the category validators: accepted iff the name is non-empty and at most 50 UTF-16 code units and the description, when present, is at most 200 (the creator is always present in the model) |
| CategoryModel.Trim | models/category.model.js:9 | definition of the `trim: true` setter: TrimStart then TrimEnd, removing exactly JavaScript's leading and trailing white space |
| CategoryModel.TrimStart | models/category.model.js:9 | the result is a suffix whose first character is not white space, and everything removed was white space |
| CategoryModel.TrimEnd | models/category.model.js:9 | the result is a prefix whose last character is not white space, and everything removed was white space |
| CategoryModel.TrimTrimmed | models/category.model.js:9 | a trimmed name neither starts nor ends with white space |
| CategoryModel.TrimmedFixed | models/category.model.js:9 | trimming a name that is already trimmed leaves it unchanged |
| CategoryModel.TrimIdempotent | models/category.model.js:9 | trimming twice equals trimming once |
| CategoryController.FindById | controllers/category.controller.js:51 | finds a position holding the id iff some category has that id |
| CategoryController.DeleteId | controllers/category.controller.js:65 | `findByIdAndDelete` keeps exactly the categories with a different id |
| CategoryController.DeleteIdKeepsInvariant | controllers/category.controller.js:65 | deleting by id keeps every category valid and trimmed, and ids and names unique |
| CategoryController.DeleteIdRemovesOne | controllers/category.controller.js:65 | with unique ids, deleting a present id removes exactly one category |
| CategoryController.DeleteIdAbsent | controllers/category.controller.js:65 | deleting an absent id changes nothing |
| CategoryController.HeadIsNewest | controllers/category.controller.js:33 | in a list sorted newest first, the head is at least as new as the rest |
| CategoryController.PrependNewestFirst | controllers/category.controller.js:33 | prepending something at least as new as all of a newest-first list keeps it newest first |
| CategoryController.Insert | controllers/category.controller.js:33 | inserting into a newest-first list adds exactly that category and keeps the list newest first |
| CategoryController.SortNewestFirst | controllers/category.controller.js:33 | the result is a permutation of the input ordered by creation time, newest first |
| CategoryController.CategoryCollection.GetAllCategories | controllers/category.controller.js:30-43 | the listing holds every stored category exactly as often as stored, newest first |
| CategoryController.CategoryCollection.Save | controllers/category.controller.js:17 | `save` adds the category iff it passes the validators and its name is not taken (unique index) |
| CategoryController.CategoryCollection.CreateCategory | controllers/category.controller.js:4-27 | a taken (trimmed) name gives 400 and no change; otherwise the category with the trimmed name, the path's creator id and the given description is added with 201, or 500 if invalid; the store stays valid |
| CategoryController.CategoryCollection.DeleteCategory | controllers/category.controller.js:46-75 | 404 for a missing id before the creator check, 403 and no change when the path `uid` is not the creator, otherwise exactly that id is deleted |
| CategoryController.AppendKeepsInvariant | models/category.model.js:5-11 | adding a valid category with a trimmed name, a new id and a new name keeps the store invariant |
| UserModel.ValidUser | models/user.model.js:5-41 | definition of the user validators: accepted iff the full name is non-empty, the username has 3 to 50 UTF-16 code units, the email passes IsEmail, the stored password (the hash) has at least 6, the role is `user` or `admin`, and the bio, when present, has at most 300 |
| UserModel.IsEmail | models/user.model.js:20-23 | definition of the email `match` validator: the text before the first `@` is a non-empty run of `[a-zA-Z0-9._%+-]`, the text between it and the last `.` a non-empty run of `[a-zA-Z0-9.-]`, and the rest at least two letters |
| UserModel.IndexOf | models/user.model.js:21 | the position of the first occurrence of a character, or the length when there is none |
| UserModel.LastIndexOf | models/user.model.js:21 | the position of the last occurrence of a character, or -1 when there is none |
| UserModel.IsEmailIffPattern | models/user.model.js:20-23 | the first-`@` / last-`.` check accepts exactly the strings the email pattern matches |
| UserController.FindById | controllers/user.controller.js:122 | finds a position holding the id iff some user has that id |
| UserController.FindByUsername | controllers/user.controller.js:67 | finds a position holding the username iff some user has it |
| UserController.FindByIdUnique | controllers/user.controller.js:122 | with unique ids, the lookup by a user's id finds that user |
| UserController.FindByUsernameUnique | controllers/user.controller.js:67 | with unique usernames, the lookup by a user's name finds that user |
| UserController.Login | controllers/user.controller.js:56-100 | 400 "Something is missing ..." iff username or password is missing; 400 "Invalid email or password" for an unknown username and for a password that does not match the found user; 403 iff the request is complete and the found user's hash matches but the role differs or is missing; a login succeeds only for a stored user with that username whose hash matches and whose role equals the requested one, with token payload {id, role} from the stored user |
| UserController.LoginSucceeds | controllers/user.controller.js:67-94 | with a correct bcrypt, a stored user who gives their username, a password whose hash is stored and their role is logged in as themselves |
| UserController.LoginHidesUnknownUsernames | controllers/user.controller.js:67-76 | an unknown username and a wrong password get the same reply |
| UserController.LoginNeedsRole | controllers/user.controller.js:60-82 | with a correct bcrypt, a stored user who sends correct credentials but no role passes the presence check and is refused with 403 by the role comparison |
| UserController.GetUser | controllers/user.controller.js:118-135 | the user with that id and 200 iff the id is stored, otherwise 404 "User not found" |
| UserController.GetAllUsers | controllers/user.controller.js:138-157 | 404 "No users found" iff the store is empty, otherwise 200 and every stored user |
| UserController.NewUser | controllers/user.controller.js:28-40 | the created user stores the hash of the password, never the password itself, and the role defaults to `user` when none is given |
| UserController.NewUserValid | models/user.model.js:5-41 | with a correct bcrypt, a complete signup passes validation iff the username has 3 to 50 UTF-16 code units, the email matches the pattern, the role is `user`, `admin` or absent, and the bio has at most 300 code units |
| UserController.AppendKeepsInvariant | controllers/user.controller.js:43 | adding a valid user with a new id, username and email keeps the store invariant |
| UserController.SignedUpUserLogsIn | controllers/user.controller.js:28-94 | a user who has just signed up logs in with the same username and password under the role they were given |
| UserController.Edited | controllers/user.controller.js:175-186 | definition of updateUser's edits: the password is replaced by the hash of a non-empty sent one; full name, username and email use `||` with the old value; the avatar uses `||` only when a full name was sent; the bio uses `||` |
| UserController.EditedFields | controllers/user.controller.js:175-186 | after the presence check passes, id and role never change; full name and username become the sent ones; the email, password, avatar and bio change only when a non-empty value is sent, and a new password is stored hashed |
| UserController.ReplaceKeepsInvariant | controllers/user.controller.js:189 | replacing a user by a valid one with the same id and free names keeps the store invariant |
| UserController.UpdatedPasswordLogsIn | controllers/user.controller.js:176-179 | after an update that sets a password, the user logs in with it |
| UserController.RemoveKeepsInvariant | controllers/user.controller.js:207 | removing a user keeps the store invariant |
| UserController.RemovedUserGone | controllers/user.controller.js:207-210 | after a user is removed, looking up their id answers 404 |
| UserController.UserCollection.Insert | controllers/user.controller.js:43 | `save` adds the user iff it passes the validators and its username and email are not taken (unique indexes) |
| UserController.UserCollection.Replace | controllers/user.controller.js:189 | `save` on a loaded user replaces it iff it passes the validators and no other user holds its username or email |
| UserController.UserCollection.Signup | controllers/user.controller.js:7-53 | 400 and no change for a missing field; "Email is already taken" before "Username is already taken"; otherwise the new user with the hashed password is added with 201, or 500 if invalid; the store stays valid |
| UserController.UserCollection.UpdateUser | controllers/user.controller.js:161-199 | 400 unless a full name, a username, and an email or a password are sent (JavaScript precedence), checked before the 404 lookup; otherwise the edited user replaces the stored one with 200, or 500 if it is invalid or clashes; the store stays valid |
| UserController.UserCollection.DeleteUser | controllers/user.controller.js:202-217 | 404 and no change for a missing id, otherwise exactly that user is removed with 200 |

## Left out

- getAllBlogs and getBlogById: reads whose only logic is the `populate` join with the users and categories collections. Joins are outside this model.
- logout and the token middleware: cookie handling and `jsonwebtoken` signing and verification. They are foreign code with no business rule. Login returns the token payload in place of the signed token.
- bcrypt's `genSalt`, `hash` and `compare` are uninterpreted (`Hasher`). The salt is a parameter. No cryptography is modelled.
- Clocks (`new Date()`, `Date.now`, schema timestamps) are a `now` parameter, and the automatic `updatedAt` is not recorded.
- Database-assigned ids are a parameter, fresh by precondition.
- The 500 paths other than a failing `save`: database outages, and ObjectId cast errors for malformed ids. Ids are an abstract type with equality, so `toString` comparisons and casting are not modelled.
- Concurrency: each handler is one atomic step, so the lost updates between simultaneous read-modify-write requests on one blog are not captured.
- Request bodies are strings, arrays of strings and booleans as declared. Values of other JSON types, and their casting by the mapper, are not modelled. This includes `isPublished: null` and a non-boolean `isPublished`.
- The response payloads beyond status and message: the returned documents, and `success` flags.
- A request body without a category name: the model looks up the empty string, which matches no stored name, and the save then fails validation with 500. A query with an undefined filter value is not modelled separately.
- `lastUpdatedBy`: updateBlog assigns it, but the schema has no such path, so it is never stored. The model keeps it on the loaded document only.
- Unicode: the white space that JavaScript's `trim` removes is modelled (`IsSpace`), and every length limit in ValidBlog, ValidComment, ValidCategory and ValidUser counts UTF-16 code units (`JsLength`), as JavaScript's `length` does. Strings are sequences of Unicode scalar values, so a lone surrogate, which JavaScript strings can hold, cannot be written. No other Unicode handling is modelled.
- The regular-expression engine: the email pattern is a hand-written character-class predicate. It is proved equal to the pattern read as a decomposition, not derived from a regex semantics.
