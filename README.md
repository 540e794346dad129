# Blog content store with guarded mutations

A model of the blog backend's content store: the tables of users, profiles,
posts, comments and likes, the rules the serializers apply when a user
creates one of them, the ownership guard the request handlers apply before
they update or delete a post, a comment or a like, and the deletions that the
`on_delete=CASCADE` foreign keys carry along.

- `errors.dfy` (module `Errors`): every error the handlers raise, with its exact
  message, and the `Result` a request answers with (a value, or a list of errors).
- `models.dfy` (module `Models`): the records and the store (`Db`: five tables,
  each with the next key its sequence hands out); the store invariant `Valid`
  (unique usernames and emails, one profile per user, every foreign key
  resolves, every like has exactly one target, no user likes the same post or
  comment twice); `create_user`; and the cascading deletes.
- `serializers.dfy` (module `Serializers`): signup (field validation, then
  `create_user`), the login decision, and profile, post, comment and like
  creation, each as a function from the store and the request to the new store
  and the response.
- `views.dfy` (module `Views`): the post, comment and like handlers that update
  or delete by id, the profile lookup's error, and deleting one's own account.
- `store.dfy` (module `Store`): class `Blog`, whose fields are the five tables.
  Each method performs one request in place (look up, guard, assign or delete)
  and is proved to keep `Valid` and to produce exactly the store and response
  described by the functions above.

The requesting user is a parameter (`actor`), the authenticated identity the
framework supplies; handlers that need one require it to be a stored user, as
the `IsAuthenticated` permission does. A request payload is modelled key by
key: `None` is a key the request leaves out, and a nullable foreign key is
`Absent`, `Null` or `Given(id)`, because the like serializer treats a key sent
as null as present.

Behaviour the model follows from the code:
- Serializer field validation runs before `create`. A like request naming a
  post or comment id that does not exist is refused with the "Invalid pk"
  validation error, even when it names both a post and a comment
  (`CreateLikeDecides`). The both-targets conflict is reported only for ids that exist.
- The like serializer's `create` tests for a previous like with `count == 1`. Under the invariant there
  is at most one such like, so this is the same as "already liked"
  (`AlreadyLikedIsCountOne`).
- `create_user` reports every unique-constraint failure with the email message,
  as a non-field error (`UserExists`).
  Through signup, the serializer's uniqueness check on `username` runs first and
  reports "user with this username already exists." (`SignupUsernameTaken`).
  A username clash that reaches `create_user` directly is reported as an email
  clash (`CreateUserUsernameClashSaysEmail`).
- Deleting a like reuses the comment handler's messages ("No comment found",
  "You cannot delete someone else comment").
- Keys the handlers index without checking (`request.data['title']`, the
  `pop` calls in `create`) fail with a `MissingKey` error (an unhandled KeyError).
  Taking `.id` of a like target sent as null fails with `NullObject`, and
  `create_user` without an email raises a `ValueError` that nothing catches
  (`NoEmail`). In all three cases nothing is written.
- Signup and login bound the length of the same fields differently. Signup takes a
  `username` of up to 255 characters (the column width) and a `password` of 6 to
  128 (Django's stored-password column, plus the serializer's `min_length`).
  Login's own serializer takes a `username` of at most 17 characters and a
  `password` of 6 to 68, and checks them before it authenticates.

## Model

| member | source | states |
|---|---|---|
| Models.PostLikesAtMostOne | blog/app/serializers.py:151-156 | when no user likes a post twice, `Like.objects.filter(user, post).count()` is at most 1 |
| Models.CommentLikesAtMostOne | blog/app/serializers.py:145-150 | when no user likes a comment twice, the per-(user, comment) count is at most 1 |
| Models.CreateUser | blog/app/models.py:41-51 | a missing or empty email fails with "Users must have an email address or phone number"; with an email given, it succeeds exactly when no stored user has the username or the email, and any clash fails with the non-field error "A user with that email already exists."; on failure nothing is inserted; on success exactly the new user is added, under the next id |
| Models.CreateUserKeepsValid | blog/app/models.py:54-65 | creating a user keeps usernames and emails unique |
| Models.CreateUserUsernameClashSaysEmail | blog/app/models.py:45-50 | a username already taken, reaching `create_user`, is reported with the email message |
| Models.DeletePostsExact | blog/app/models.py:103-112 | deleting posts removes exactly those posts, every comment on them and every like on them or on those comments; users, profiles and all other rows stay unchanged |
| Models.DeletePostsKeepsValid | blog/app/models.py:103-112 | after deleting posts, no comment or like refers to a missing row |
| Models.DeleteCommentsExact | blog/app/models.py:109-112 | deleting comments removes exactly them and the likes on them |
| Models.DeleteCommentsKeepsValid | blog/app/models.py:109-112 | after deleting comments, no like refers to a missing comment |
| Models.DeleteLikesKeepsValid | blog/app/models.py:109-112 | deleting likes keeps the store valid |
| Models.DropUserKeepsValid | blog/app/models.py:84-85 | once no post, comment or like refers to a user, removing the user and their profile keeps the store valid |
| Models.DeleteUserKeepsValid | blog/app/models.py:84-112 | after a user is deleted, no profile, post, comment or like refers to a missing row |
| Models.DeleteUserExact | blog/app/models.py:84-112 | deleting a user removes exactly their profile, their posts, their comments and the comments on their posts, and their likes and the likes on every deleted post or comment; every row that stays keeps its values |
| Serializers.Signup | blog/app/serializers.py:41-51 | a request refused by validation or by `create_user` leaves the store unchanged |
| Serializers.SignupKeepsValid | blog/app/serializers.py:41-51 | signup keeps the store valid, so usernames and emails stay unique |
| Serializers.SignupSucceeds | blog/app/serializers.py:41-51 | signup succeeds exactly when every field passes validation (required, not blank, unique, and within the length bounds of `username` and `password`) and an email is given; the new user gets a fresh id and the submitted fields, and nothing else changes |
| Serializers.SignupEmailTaken | blog/app/tests/test_signup_view.py:24-49 | a signup whose email is taken is refused, the first error being "A user with that email already exists." on `email` |
| Serializers.SignupUsernameTaken | blog/app/tests/test_signup_view.py:51-76 | a signup that clashes only on username is refused with just "user with this username already exists." on `username` |
| Serializers.SignupThenLogin | blog/app/serializers.py:9-38 | after a successful signup with a username of at most 17 characters and a password of at most 68, logging in with them succeeds |
| Serializers.LongUsernameCannotLogin | blog/app/serializers.py:9-12 | signup accepts a username of 18 or more characters, and login then refuses it with "Ensure this field has no more than 17 characters.", whatever the password |
| Serializers.Login | blog/app/serializers.py:9-38 | login succeeds exactly when `username` (1 to 17 characters) and `password` (6 to 68) pass validation and some user holds the pair, and returns that username; a request failing validation gets exactly its field errors; a valid pair no user holds fails with "Invalid credentials, try again" |
| Serializers.LoginRejects | blog/app/tests/test_login_view.py:28-50 | for a request that passes validation, an unknown username and a wrong password both get "Invalid credentials, try again" |
| Serializers.CreateProfile | blog/app/serializers.py:61-70 | a refused profile request changes nothing |
| Serializers.CreateProfileStores | blog/app/serializers.py:61-70 | a profile is created exactly when `biography` and `profile_image` are present and the user has none; it belongs to the requesting user, holds the submitted values under a fresh id, and nothing else changes |
| Serializers.CreateProfileKeepsValid | blog/app/models.py:84-85 | profile creation keeps at most one profile per user |
| Serializers.ProfileExistsRefused | blog/app/serializers.py:63-70 | a user who has a profile gets "Profile exists" and the store, including that profile, is unchanged |
| Serializers.ProfileTwice | blog/app/serializers.py:61-70 | the first profile request of a user succeeds, and a second one is refused with "Profile exists" |
| Serializers.CreatePost | blog/app/serializers.py:88-99 | a refused post request changes nothing |
| Serializers.CreatePostKeepsValid | blog/app/serializers.py:88-99 | a created post's author exists |
| Serializers.CreatePostStores | blog/app/serializers.py:88-99 | a post is created exactly when the request passes validation and carries every key; it gets a fresh id, its author is the requesting user, its fields are the submitted ones, and nothing else changes |
| Serializers.CreateComment | blog/app/serializers.py:117-122 | a refused comment request changes nothing |
| Serializers.CreateCommentKeepsValid | blog/app/serializers.py:117-122 | a created comment's user and post exist |
| Serializers.CreateCommentStores | blog/app/serializers.py:117-122 | a comment is created exactly when it names an existing post and carries `text`; its user is the requesting user and nothing else changes |
| Serializers.CreateLike | blog/app/serializers.py:140-159 | a refused like request inserts nothing |
| Serializers.AlreadyLikedIsCountOne | blog/app/serializers.py:147-148 | under the invariant, the test `previous_like == 1` holds exactly when the user already likes the target |
| Serializers.AddUniqueLike | blog/app/serializers.py:145-156 | adding a like whose user does not yet like its target keeps at most one like per (user, post) and per (user, comment) |
| Serializers.InsertLikeKeepsValid | blog/app/serializers.py:145-156 | inserting such a like on one existing target keeps the store valid |
| Serializers.CreateLikeKeepsValid | blog/app/serializers.py:140-159 | like creation keeps every like single-targeted and at most one per (user, target) |
| Serializers.CreateLikeDecides | blog/app/serializers.py:140-159 | a post or comment id naming no row is refused with its "Invalid pk" validation error before any other test; with the ids valid, both targets give "You cannot like a comment and a post at the same time", neither gives "You did not set the object you like", a single target sent as null fails with `NullObject` (taking `.id` of None), a repeat gives "You already liked this comment/post", a first like of a single existing target succeeds; a success returns "Liked" and adds exactly one like, with the single target named, under a fresh id |
| Serializers.LikePostTwice | blog/app/serializers.py:151-156 | liking a post succeeds the first time, and the second time fails with "You already liked this post" |
| Views.UpdatePost | blog/app/views.py:131-146 | a refused full update changes nothing |
| Views.PartialUpdatePost | blog/app/views.py:152-162 | a refused partial update changes nothing |
| Views.DestroyPost | blog/app/views.py:164-174 | a refused post delete removes nothing |
| Views.UpdateComment | blog/app/views.py:206-234 | a refused comment update, full or partial, changes nothing |
| Views.DestroyComment | blog/app/views.py:236-246 | a refused comment delete removes nothing |
| Views.DestroyLike | blog/app/views.py:273-283 | a refused like delete removes nothing |
| Views.DestroyUser | blog/app/views.py:72-78 | deleting one's account always succeeds and leaves a valid store in which no profile, post, comment or like belongs to that user |
| Views.DestroyUserExact | blog/app/views.py:72-78 | deleting one's account removes exactly the actor, their profile, their posts, their comments and the comments on their posts, their likes and the likes on any removed post or comment; every other row stays and keeps its values |
| Views.PostGuards | blog/app/views.py:131-174 | for update, partial update and delete, a missing id gives "No post found" and a post owned by someone else gives "You cannot update/delete someone else post", with the store unchanged |
| Views.CommentGuards | blog/app/views.py:206-246 | a missing id gives "No comment found" and someone else's comment gives "You cannot update/delete someone else comment", with the store unchanged |
| Views.LikeGuards | blog/app/views.py:273-283 | deleting a missing like gives "No comment found" and someone else's like gives "You cannot delete someone else comment", with nothing removed |
| Views.OnlyOwnersMutate | blog/app/views.py:131-283 | whenever an update or delete changes the store, the requesting user owns the row |
| Views.UpdatePostSetsFields | blog/app/views.py:136-143 | the author's full update succeeds exactly when all five keys are present, and then sets title, content, publish_date, category and tags to the submitted values, keeps id and author, and changes no other post or table |
| Views.PartialUpdatePostMerges | blog/app/views.py:157-159 | the author's partial update writes each field present in the request, keeps each absent field and the author, and changes no other post or table |
| Views.PartialUpdateOfAllFieldsIsUpdate | blog/app/views.py:131-162 | a partial update carrying every field has the same effect as a full update |
| Views.DestroyPostRemoves | blog/app/views.py:164-174 | the delete succeeds exactly for the author; it then removes the post, its comments and every like on the post or its comments; every other post, comment and like keeps its values, and the store stays valid |
| Views.UpdateCommentSetsText | blog/app/views.py:206-234 | the owner's update succeeds exactly when `text` is present, and then changes only the comment's text |
| Views.DestroyCommentRemoves | blog/app/views.py:236-246 | the delete succeeds exactly for the owner; it then removes the comment and the likes on it; every other comment and like keeps its values, and the store stays valid |
| Views.DestroyLikeRemoves | blog/app/views.py:273-283 | the delete succeeds exactly for the owner, and then the likes are the old ones without that like, unchanged |
| Views.RewritePostKeepsValid | blog/app/views.py:131-162 | overwriting a post's fields while keeping its author keeps the store valid |
| Views.PostUpdatesKeepValid | blog/app/views.py:131-162 | full and partial post updates keep the store valid |
| Views.CommentUpdateKeepsValid | blog/app/views.py:206-234 | comment updates keep the store valid |
| Store.Blog.constructor | blog/app/models.py:84-112 | a new store is empty and valid |
| Store.Blog.CreateUser | blog/app/models.py:41-51 | in place: keeps the store valid and does what `Models.CreateUser` describes |
| Store.Blog.Signup | blog/app/serializers.py:41-51 | in place: validation, then `CreateUser`, as `Serializers.Signup` describes |
| Store.Blog.GetProfile | blog/app/views.py:86-90 | fails with the validation error "No profile associated" exactly when the user has no profile; otherwise returns a stored profile of that user |
| Store.Blog.CreateProfile | blog/app/serializers.py:61-70 | in place, as `Serializers.CreateProfile` describes, keeping the store valid |
| Store.Blog.CreatePost | blog/app/serializers.py:88-99 | in place, as `Serializers.CreatePost` describes, keeping the store valid |
| Store.Blog.CreateComment | blog/app/serializers.py:117-122 | in place, as `Serializers.CreateComment` describes, keeping the store valid |
| Store.Blog.CreateLike | blog/app/serializers.py:140-159 | in place: counts the earlier likes and inserts, as `Serializers.CreateLike` describes, keeping the store valid |
| Store.Blog.UpdatePost | blog/app/views.py:131-146 | in place: assigns the fields of the looked-up post, as `Views.UpdatePost` describes |
| Store.Blog.PartialUpdatePost | blog/app/views.py:152-162 | in place, as `Views.PartialUpdatePost` describes |
| Store.Blog.DestroyPost | blog/app/views.py:164-174 | in place, with the cascade, as `Views.DestroyPost` describes |
| Store.Blog.UpdateComment | blog/app/views.py:206-234 | in place, for both PUT and PATCH, as `Views.UpdateComment` describes |
| Store.Blog.DestroyComment | blog/app/views.py:236-246 | in place, with the cascade, as `Views.DestroyComment` describes |
| Store.Blog.DestroyLike | blog/app/views.py:273-283 | in place, as `Views.DestroyLike` describes |
| Store.Blog.DestroyUser | blog/app/views.py:72-78 | in place, with the cascade, as `Views.DestroyUser` describes |

## Left out

- Token issuance (`User.tokens`), logout and token blacklisting: these are calls into the JWT library.
- Serializers.Login: returns the username in place of the access/refresh token pair.
- Serializers.SignupThenLogin: holds only for a username of at most 17 characters and a password of at most 68, because login validates tighter bounds than signup; `LongUsernameCannotLogin` states the username case.
- Password hashing and the internals of `authenticate`: a user's stored password stands for its hash, and `authenticate` is a check that some user holds the (username, password) pair. The `is_active` check is not modelled.
- `normalize_email` is taken to be the identity, so the case where the uniqueness validator passes and the database then refuses a differently normalised email is not modelled.
- The 255-character bounds of `first_name`, `last_name`, `email`, `title`, `content`, `category`, the `tags` items, `biography` and comment `text`, email syntax, image upload validation, the trimming of surrounding whitespace from text fields, and the coercion of request values to field types are not modelled. Only the `username` and `password` bounds are. The post update handlers write without validation, so the database's own `varchar(255)` check on `title`, `category` and the `tags` items would refuse an over-long value there with a DataError (HTTP 500) and write nothing; `UpdatePostSetsFields` and `PartialUpdatePostMerges` let such an update succeed.
- An empty `tags` list is accepted. The list field the framework derives from the non-blank `tags` array column may refuse it at validation, but that mapping lies in the framework and is not part of this model. Image references are strings, `tags` is a sequence of strings, and `publish_date` is a number.
- HTTP status codes, routing, schema decorators and response bodies: handlers answer with the new row's id or the updated row rather than echoing the request data.
- The `attr` field of an error response is not modelled separately. Field-validation errors carry their field name; `EmailTaken` and `UsernameTaken` are the errors of the `email` and `username` fields, and `UserExists` names no field.
- The `created`/`modified` timestamps and the default ordering: these are set from the clock and carry no logic.
- The list and retrieve handlers (`get_queryset`), the generic retrieve/update/delete of the profile beyond its lookup, and the retrieve/update of the user account: these are framework defaults with no rules of the repository's own. `User.get_short_name` only returns the username.
- Concurrency: requests run one after another. The check-then-insert race in like creation, which under concurrent requests can insert two likes for one (user, target), is outside the model. For the same reason `LikesUnique` is an invariant of sequential use, not a database constraint.
- A partial post update whose payload has keys other than the five writable fields (for example `author`, `id`, or an unknown key) is not modelled: the request type cannot express it.
- Admin registration and the test factory.
