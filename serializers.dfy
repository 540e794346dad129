/** The creation rules the serializers apply: signing up, logging in, and
    creating a profile, a post, a comment or a like on behalf of the
    requesting user. Each request first passes the serializer's field
    validation; only a request that passes reaches `create`. */
module Serializers {
  import opened Errors
  import opened Models

  /** A nullable foreign key in a request: left out, sent as null, or given. */
  datatype Field<T> = Absent | Null | Given(id: T)

  /** Signup payload; `None` is a key the request leaves out (or, for `email`, sends as null). */
  datatype SignupRequest = SignupRequest(email: Option<string>, firstName: Option<string>, lastName: Option<string>,
                                         username: Option<string>, password: Option<string>)

  /** Login payload; `None` is a key the request leaves out. */
  datatype LoginRequest = LoginRequest(username: Option<string>, password: Option<string>)

  datatype ProfileRequest = ProfileRequest(biography: Option<string>, profileImage: Option<string>)

  /** The writable post fields; `None` is a key the request leaves out. `publishDate`
      is `Some(None)` when the request sends null. Also the payload of post updates. */
  datatype PostFields = PostFields(title: Option<string>, content: Option<string>,
                                   publishDate: Option<Option<Timestamp>>, category: Option<string>,
                                   tags: Option<seq<string>>)

  datatype CommentRequest = CommentRequest(post: Field<Id>, text: Option<string>)

  datatype LikeRequest = LikeRequest(post: Field<Id>, comment: Field<Id>)

  // ---------------------------------------------------------------------------
  // Field validation

  /** A required, non-blank text field. */
  function RequiredText(field: string, v: Option<string>): seq<Error> {
    if v.None? then [MissingField(field)] else if v.value == "" then [BlankField(field)] else []
  }

  /** The length bounds of a text field, the upper bound checked first. */
  function LengthErrors(field: string, s: string, min: nat, max: nat): seq<Error> {
    (if |s| > max then [TooLong(field, max)] else []) + (if |s| < min then [TooShort(field, min)] else [])
  }

  /** A required, non-blank text field whose length must lie in `min..max`. */
  function BoundedText(field: string, v: Option<string>, min: nat, max: nat): (e: seq<Error>)
    ensures e == [] <==> v.Some? && v.value != "" && min <= |v.value| <= max
  {
    if v.None? then [MissingField(field)]
    else if v.value == "" then [BlankField(field)]
    else LengthErrors(field, v.value, min, max)
  }

  predicate EmailInUse(users: map<Id, User>, email: string) {
    exists i :: i in users && users[i].email == Some(email)
  }

  predicate UsernameInUse(users: map<Id, User>, username: string) {
    exists i :: i in users && users[i].username == username
  }

  /** The width of the `username` column, and of the stored password column
      that the signup serializer takes its `password` bound from. */
  const MAX_USERNAME: nat := 255
  const MAX_PASSWORD: nat := 128

  /** The signup serializer's field errors, in field order: `email` may be left
      out or null but not blank, and must be unused; the names are required and
      not blank; `username` is required, not blank, unused and at most 255
      characters; `password` is required, not blank and 6 to 128 characters. */
  function SignupErrors(users: map<Id, User>, req: SignupRequest): seq<Error> {
    var email :=
      if req.email == Some("") then [BlankField("email")]
      else if req.email.Some? && EmailInUse(users, req.email.value) then [EmailTaken]
      else [];
    var username :=
      if req.username.None? || req.username.value == "" then RequiredText("username", req.username)
      else (if UsernameInUse(users, req.username.value) then [UsernameTaken] else []) +
           LengthErrors("username", req.username.value, 0, MAX_USERNAME);
    email + RequiredText("first_name", req.firstName) + RequiredText("last_name", req.lastName) +
    username + BoundedText("password", req.password, 6, MAX_PASSWORD)
  }

  /** A required, non-null reference that must name an existing row. */
  function RequiredRelated(field: string, v: Field<Id>, keys: set<Id>): seq<Error> {
    match v
    case Absent => [MissingField(field)]
    case Null => [NullField(field)]
    case Given(id) => if id in keys then [] else [InvalidPk(field, id)]
  }

  /** An optional, nullable reference: only a given id is checked. */
  function OptionalRelated(field: string, v: Field<Id>, keys: set<Id>): seq<Error> {
    if v.Given? && v.id !in keys then [InvalidPk(field, v.id)] else []
  }

  // ---------------------------------------------------------------------------
  // Signup and login

  function Signup(db: Db, req: SignupRequest): (r: Outcome<Id>)
    ensures r.result.Err? ==> r.db == db
  {
    var errors := SignupErrors(db.users.rows, req);
    if errors != [] then Outcome(db, Err(errors))
    else CreateUser(db, req.email, req.firstName.value, req.lastName.value, req.username.value, req.password.value)
  }

  /** The credential check behind `authenticate`: a user with this username holds this password. */
  predicate Authenticates(users: map<Id, User>, username: string, password: string) {
    exists i :: i in users && users[i].username == username && users[i].password == password
  }

  /** The login serializer's own fields: `username` at most 17 characters,
      `password` 6 to 68, both required and not blank. */
  function LoginErrors(req: LoginRequest): (e: seq<Error>)
    ensures e == [] <==>
      req.username.Some? && 0 < |req.username.value| <= 17 &&
      req.password.Some? && 6 <= |req.password.value| <= 68
  {
    BoundedText("username", req.username, 0, 17) + BoundedText("password", req.password, 6, 68)
  }

  /** Login validates the two fields, then accepts exactly the pairs that
      authenticate, and answers every other valid pair with the same error. */
  function Login(db: Db, req: LoginRequest): (r: Result<string>)
    ensures r.Ok? <==> LoginErrors(req) == [] && Authenticates(db.users.rows, req.username.value, req.password.value)
    ensures r.Ok? ==> r.value == req.username.value
    ensures LoginErrors(req) != [] ==> r.Err? && r.errors == LoginErrors(req)
    ensures LoginErrors(req) == [] && r.Err? ==> r == Fail(InvalidCredentials)
  {
    var errors := LoginErrors(req);
    if errors != [] then Err(errors)
    else if Authenticates(db.users.rows, req.username.value, req.password.value) then Ok(req.username.value)
    else Fail(InvalidCredentials)
  }

  lemma SignupKeepsValid(db: Db, req: SignupRequest)
    requires Valid(db)
    ensures Valid(Signup(db, req).db)
  {
  }

  /** Signup succeeds exactly when validation passes and an email is given;
      the new user then holds the submitted fields under a fresh id. */
  lemma {:induction false} SignupSucceeds(db: Db, req: SignupRequest)
    requires Valid(db)
    ensures var r := Signup(db, req);
      (r.result.Ok? <==> SignupErrors(db.users.rows, req) == [] && req.email.Some?) &&
      (r.result.Ok? ==>
        r.result.value !in db.users.rows &&
        r.db.users.rows == db.users.rows[r.result.value :=
          User(req.email, req.firstName.value, req.lastName.value, req.username.value, req.password.value)] &&
        r.db.profiles == db.profiles && r.db.posts == db.posts &&
        r.db.comments == db.comments && r.db.likes == db.likes)
  {
  }

  /** A second signup with a used email is refused, the email error first. */
  lemma SignupEmailTaken(db: Db, req: SignupRequest)
    requires req.email.Some? && req.email.value != ""
    requires exists i :: i in db.users.rows && db.users.rows[i].email == req.email
    ensures var r := Signup(db, req);
      r.db == db && r.result.Err? && |r.result.errors| > 0 && r.result.errors[0] == EmailTaken
  {
  }

  /** A signup that only clashes on username is refused with the username error alone. */
  lemma SignupUsernameTaken(db: Db, req: SignupRequest)
    requires req.email.Some? && req.email.value != "" && !EmailInUse(db.users.rows, req.email.value)
    requires RequiredText("first_name", req.firstName) == [] && RequiredText("last_name", req.lastName) == []
    requires BoundedText("password", req.password, 6, MAX_PASSWORD) == []
    requires req.username.Some? && req.username.value != "" && |req.username.value| <= MAX_USERNAME
    requires exists i :: i in db.users.rows && db.users.rows[i].username == req.username.value
    ensures Signup(db, req) == Outcome(db, Fail(UsernameTaken))
  {
  }

  /** A user who has just signed up with a username of at most 17 characters
      and a password of at most 68 can log in with them. */
  lemma SignupThenLogin(db: Db, req: SignupRequest)
    requires Valid(db)
    requires Signup(db, req).result.Ok?
    requires |req.username.value| <= 17 && |req.password.value| <= 68
    ensures Login(Signup(db, req).db, LoginRequest(req.username, req.password)) == Ok(req.username.value)
  {
    SignupSucceeds(db, req);
    var r := Signup(db, req);
    var id := r.result.value;
    assert r.db.users.rows[id].username == req.username.value;
  }

  /** Signup takes usernames of up to 255 characters but login only up to 17:
      a user who signed up with a longer one is refused by login's validation,
      whatever the password. */
  lemma LongUsernameCannotLogin(db: Db, req: SignupRequest, password: Option<string>)
    requires Signup(db, req).result.Ok?
    requires |req.username.value| > 17
    ensures SignupErrors(db.users.rows, req) == [] && |req.username.value| <= MAX_USERNAME
    ensures var r := Login(Signup(db, req).db, LoginRequest(req.username, password));
      r.Err? && r.errors[0] == TooLong("username", 17)
  {
  }

  /** Login cannot tell an unknown username from a wrong password. */
  lemma LoginRejects(db: Db, req: LoginRequest)
    requires UsersUnique(db.users.rows) && LoginErrors(req) == []
    requires (forall i :: i in db.users.rows ==> db.users.rows[i].username != req.username.value) ||
             (exists i :: i in db.users.rows && db.users.rows[i].username == req.username.value &&
                          db.users.rows[i].password != req.password.value)
    ensures Login(db, req) == Fail(InvalidCredentials)
  {
  }

  // ---------------------------------------------------------------------------
  // Profiles

  predicate HasProfile(profiles: map<Id, Profile>, user: Id) {
    exists p :: p in profiles && profiles[p].user == user
  }

  /** `profile_image` is required by validation; a missing `biography` key
      fails when `create` pops it; the one-to-one link refuses a second profile. */
  function CreateProfile(db: Db, actor: Id, req: ProfileRequest): (r: Outcome<Id>)
    ensures r.result.Err? ==> r.db == db
  {
    if req.profileImage.None? then Outcome(db, Fail(MissingField("profile_image")))
    else if req.biography.None? then Outcome(db, Fail(MissingKey("biography")))
    else if HasProfile(db.profiles.rows, actor) then Outcome(db, Fail(ProfileExists))
    else
      Outcome(db.(profiles := db.profiles.Insert(Profile(actor, req.biography.value, req.profileImage.value))),
              Ok(db.profiles.next))
  }

  lemma CreateProfileKeepsValid(db: Db, actor: Id, req: ProfileRequest)
    requires Valid(db) && actor in db.users.rows
    ensures Valid(CreateProfile(db, actor, req).db)
  {
  }

  /** A profile is created exactly when both keys are present and the user has
      none; it belongs to the requesting user, holds the submitted biography and
      image under a fresh id, and nothing else changes. */
  lemma CreateProfileStores(db: Db, actor: Id, req: ProfileRequest)
    requires Valid(db)
    ensures var r := CreateProfile(db, actor, req);
      (r.result.Ok? <==> req.biography.Some? && req.profileImage.Some? && !HasProfile(db.profiles.rows, actor)) &&
      (r.result.Ok? ==>
        var id := r.result.value;
        id !in db.profiles.rows &&
        r.db.profiles.rows == db.profiles.rows[id := Profile(actor, req.biography.value, req.profileImage.value)] &&
        r.db.users == db.users && r.db.posts == db.posts &&
        r.db.comments == db.comments && r.db.likes == db.likes)
  {
  }

  /** A user who has a profile cannot create another, and the one they have is left as it is. */
  lemma ProfileExistsRefused(db: Db, actor: Id, req: ProfileRequest, p: Id)
    requires req.profileImage.Some? && req.biography.Some?
    requires p in db.profiles.rows && db.profiles.rows[p].user == actor
    ensures CreateProfile(db, actor, req) == Outcome(db, Fail(ProfileExists))
  {
  }

  /** Creating a profile twice: the first succeeds, the second reports "Profile exists". */
  lemma ProfileTwice(db: Db, actor: Id, req: ProfileRequest, again: ProfileRequest)
    requires Valid(db) && actor in db.users.rows
    requires !HasProfile(db.profiles.rows, actor)
    requires req.profileImage.Some? && req.biography.Some?
    requires again.profileImage.Some? && again.biography.Some?
    ensures CreateProfile(db, actor, req).result.Ok?
    ensures var db1 := CreateProfile(db, actor, req).db;
      CreateProfile(db1, actor, again) == Outcome(db1, Fail(ProfileExists))
  {
    var db1 := CreateProfile(db, actor, req).db;
    assert db1.profiles.rows[db.profiles.next].user == actor;
  }

  // ---------------------------------------------------------------------------
  // Posts

  /** `title` and `category` are required and not blank, `tags` is required. */
  function PostErrors(req: PostFields): seq<Error> {
    RequiredText("title", req.title) + RequiredText("category", req.category) +
    (if req.tags.None? then [MissingField("tags")] else [])
  }

  /** After validation, `create` pops every field; a left-out `content` or
      `publish_date` key fails there. The author is the requesting user. */
  function CreatePost(db: Db, actor: Id, req: PostFields): (r: Outcome<Id>)
    ensures r.result.Err? ==> r.db == db
  {
    var errors := PostErrors(req);
    if errors != [] then Outcome(db, Err(errors))
    else if req.content.None? then Outcome(db, Fail(MissingKey("content")))
    else if req.publishDate.None? then Outcome(db, Fail(MissingKey("publish_date")))
    else
      var post := Post(actor, req.title.value, req.content.value, req.publishDate.value,
                       req.category.value, req.tags.value);
      Outcome(db.(posts := db.posts.Insert(post)), Ok(db.posts.next))
  }

  lemma CreatePostKeepsValid(db: Db, actor: Id, req: PostFields)
    requires Valid(db) && actor in db.users.rows
    ensures Valid(CreatePost(db, actor, req).db)
  {
  }

  /** A created post is authored by the requesting user and holds the submitted fields. */
  lemma CreatePostStores(db: Db, actor: Id, req: PostFields)
    requires Valid(db)
    ensures var r := CreatePost(db, actor, req);
      (r.result.Ok? <==> PostErrors(req) == [] && req.content.Some? && req.publishDate.Some?) &&
      (r.result.Ok? ==>
        var id := r.result.value;
        id !in db.posts.rows && r.db.posts.rows.Keys == db.posts.rows.Keys + {id} &&
        r.db.posts.rows[id].author == actor &&
        Some(r.db.posts.rows[id].title) == req.title && Some(r.db.posts.rows[id].content) == req.content &&
        Some(r.db.posts.rows[id].publishDate) == req.publishDate &&
        Some(r.db.posts.rows[id].category) == req.category && Some(r.db.posts.rows[id].tags) == req.tags &&
        (forall p :: p in db.posts.rows ==> r.db.posts.rows[p] == db.posts.rows[p]) &&
        r.db.users == db.users && r.db.profiles == db.profiles &&
        r.db.comments == db.comments && r.db.likes == db.likes)
  {
  }

  // ---------------------------------------------------------------------------
  // Comments

  /** `post` must name an existing post; a left-out `text` key fails when
      `create` pops it. The comment's user is the requesting user. */
  function CreateComment(db: Db, actor: Id, req: CommentRequest): (r: Outcome<Id>)
    ensures r.result.Err? ==> r.db == db
  {
    var errors := RequiredRelated("post", req.post, db.posts.rows.Keys);
    if errors != [] then Outcome(db, Err(errors))
    else if req.text.None? then Outcome(db, Fail(MissingKey("text")))
    else Outcome(db.(comments := db.comments.Insert(Comment(actor, req.post.id, req.text.value))),
                 Ok(db.comments.next))
  }

  lemma CreateCommentKeepsValid(db: Db, actor: Id, req: CommentRequest)
    requires Valid(db) && actor in db.users.rows
    ensures Valid(CreateComment(db, actor, req).db)
  {
  }

  /** A created comment belongs to the requesting user and to an existing post. */
  lemma CreateCommentStores(db: Db, actor: Id, req: CommentRequest)
    requires Valid(db)
    ensures var r := CreateComment(db, actor, req);
      (r.result.Ok? <==> req.post.Given? && req.post.id in db.posts.rows && req.text.Some?) &&
      (r.result.Ok? ==>
        var id := r.result.value;
        id !in db.comments.rows &&
        r.db.comments.rows == db.comments.rows[id := Comment(actor, req.post.id, req.text.value)] &&
        r.db.users == db.users && r.db.profiles == db.profiles &&
        r.db.posts == db.posts && r.db.likes == db.likes)
  {
  }

  // ---------------------------------------------------------------------------
  // Likes

  /** Both targets sent (even as null) is refused; a comment target is checked
      for a previous like by this user, then a post target; with neither the
      request is refused. The previous-like test is `count == 1`. */
  function CreateLike(db: Db, actor: Id, req: LikeRequest): (r: Outcome<string>)
    ensures r.result.Err? ==> r.db == db
  {
    var errors := OptionalRelated("post", req.post, db.posts.rows.Keys) +
                  OptionalRelated("comment", req.comment, db.comments.rows.Keys);
    if errors != [] then Outcome(db, Err(errors))
    else if !req.post.Absent? && !req.comment.Absent? then Outcome(db, Fail(LikeBoth))
    else if !req.comment.Absent? then
      if req.comment.Null? then Outcome(db, Fail(NullObject("comment")))
      else if |CommentLikes(db.likes.rows, actor, req.comment.id)| == 1 then Outcome(db, Fail(AlreadyLikedComment))
      else Outcome(db.(likes := db.likes.Insert(Like(actor, None, Some(req.comment.id)))), Ok("Liked"))
    else if !req.post.Absent? then
      if req.post.Null? then Outcome(db, Fail(NullObject("post")))
      else if |PostLikes(db.likes.rows, actor, req.post.id)| == 1 then Outcome(db, Fail(AlreadyLikedPost))
      else Outcome(db.(likes := db.likes.Insert(Like(actor, Some(req.post.id), None))), Ok("Liked"))
    else Outcome(db, Fail(NoLikeTarget))
  }

  /** With at most one like per user and target, the source's `count == 1`
      test is exactly "this user already likes it". */
  lemma {:induction false} AlreadyLikedIsCountOne(likes: map<Id, Like>, user: Id, target: Id)
    requires LikesUnique(likes)
    ensures |PostLikes(likes, user, target)| == 1 <==> PostLikes(likes, user, target) != {}
    ensures |CommentLikes(likes, user, target)| == 1 <==> CommentLikes(likes, user, target) != {}
  {
    PostLikesAtMostOne(likes, user, target);
    CommentLikesAtMostOne(likes, user, target);
  }

  /** A new like whose user does not yet like its target keeps likes unique. */
  lemma {:induction false} AddUniqueLike(likes: map<Id, Like>, n: Id, like: Like)
    requires LikesUnique(likes) && n !in likes
    requires like.post.Some? ==> PostLikes(likes, like.user, like.post.value) == {}
    requires like.comment.Some? ==> CommentLikes(likes, like.user, like.comment.value) == {}
    ensures LikesUnique(likes[n := like])
  {
    forall l | l in likes && likes[l].user == like.user
      ensures like.post.Some? ==> likes[l].post != like.post
      ensures like.comment.Some? ==> likes[l].comment != like.comment
    {
      if like.post.Some? {
        assert l !in PostLikes(likes, like.user, like.post.value);
      }
      if like.comment.Some? {
        assert l !in CommentLikes(likes, like.user, like.comment.value);
      }
    }
  }

  /** Inserting a like on one existing target that its user does not already like keeps the store valid. */
  lemma InsertLikeKeepsValid(db: Db, like: Like)
    requires Valid(db) && like.user in db.users.rows
    requires like.post.Some? != like.comment.Some?
    requires like.post.Some? ==> like.post.value in db.posts.rows && PostLikes(db.likes.rows, like.user, like.post.value) == {}
    requires like.comment.Some? ==>
      like.comment.value in db.comments.rows && CommentLikes(db.likes.rows, like.user, like.comment.value) == {}
    ensures Valid(db.(likes := db.likes.Insert(like)))
  {
    AddUniqueLike(db.likes.rows, db.likes.next, like);
  }

  lemma CreateLikeKeepsValid(db: Db, actor: Id, req: LikeRequest)
    requires Valid(db) && actor in db.users.rows
    ensures Valid(CreateLike(db, actor, req).db)
  {
    var r := CreateLike(db, actor, req);
    if r.result.Ok? {
      if req.comment.Given? {
        AlreadyLikedIsCountOne(db.likes.rows, actor, req.comment.id);
        InsertLikeKeepsValid(db, Like(actor, None, Some(req.comment.id)));
      } else {
        AlreadyLikedIsCountOne(db.likes.rows, actor, req.post.id);
        InsertLikeKeepsValid(db, Like(actor, Some(req.post.id), None));
      }
    }
  }

  /** Every post or comment id the request gives names a stored row. */
  predicate TargetsExist(db: Db, req: LikeRequest) {
    (!req.post.Given? || req.post.id in db.posts.rows) &&
    (!req.comment.Given? || req.comment.id in db.comments.rows)
  }

  /** The like decision: an id naming no row is refused by validation before
      anything else; then both targets, neither, a repeated like, or exactly
      one new like on the single target named. */
  lemma CreateLikeDecides(db: Db, actor: Id, req: LikeRequest)
    requires Valid(db)
    ensures var r := CreateLike(db, actor, req);
      (!TargetsExist(db, req) ==>
        r == Outcome(db, Err(OptionalRelated("post", req.post, db.posts.rows.Keys) +
                             OptionalRelated("comment", req.comment, db.comments.rows.Keys))) &&
        r.result.errors != [] && r.result.errors[0].InvalidPk?) &&
      (TargetsExist(db, req) && !req.post.Absent? && !req.comment.Absent? ==> r == Outcome(db, Fail(LikeBoth))) &&
      (req.post.Absent? && req.comment.Null? ==> r == Outcome(db, Fail(NullObject("comment")))) &&
      (req.comment.Absent? && req.post.Null? ==> r == Outcome(db, Fail(NullObject("post")))) &&
      (req.post.Absent? && req.comment.Absent? ==> r == Outcome(db, Fail(NoLikeTarget))) &&
      (req.post.Absent? && req.comment.Given? && CommentLikes(db.likes.rows, actor, req.comment.id) != {} ==>
        r == Outcome(db, Fail(AlreadyLikedComment))) &&
      (req.comment.Absent? && req.post.Given? && PostLikes(db.likes.rows, actor, req.post.id) != {} ==>
        r == Outcome(db, Fail(AlreadyLikedPost))) &&
      (TargetsExist(db, req) && req.post.Absent? && req.comment.Given? &&
       CommentLikes(db.likes.rows, actor, req.comment.id) == {} ==>
        r.result == Ok("Liked")) &&
      (TargetsExist(db, req) && req.comment.Absent? && req.post.Given? &&
       PostLikes(db.likes.rows, actor, req.post.id) == {} ==>
        r.result == Ok("Liked")) &&
      (r.result.Ok? ==>
        r.result.value == "Liked" &&
        db.likes.next !in db.likes.rows &&
        r.db.likes.rows == db.likes.rows[db.likes.next := Like(actor,
          if req.post.Given? then Some(req.post.id) else None,
          if req.comment.Given? then Some(req.comment.id) else None)] &&
        (req.post.Given? != req.comment.Given?) &&
        r.db.users == db.users && r.db.profiles == db.profiles &&
        r.db.posts == db.posts && r.db.comments == db.comments)
  {
    if req.comment.Given? {
      AlreadyLikedIsCountOne(db.likes.rows, actor, req.comment.id);
    }
    if req.post.Given? {
      AlreadyLikedIsCountOne(db.likes.rows, actor, req.post.id);
    }
  }

  /** Liking the same post twice: the first request likes it, the second is refused. */
  lemma LikePostTwice(db: Db, actor: Id, post: Id)
    requires Valid(db) && actor in db.users.rows && post in db.posts.rows
    requires PostLikes(db.likes.rows, actor, post) == {}
    ensures CreateLike(db, actor, LikeRequest(Given(post), Absent)).result == Ok("Liked")
    ensures var db1 := CreateLike(db, actor, LikeRequest(Given(post), Absent)).db;
      CreateLike(db1, actor, LikeRequest(Given(post), Absent)) == Outcome(db1, Fail(AlreadyLikedPost))
  {
    var req := LikeRequest(Given(post), Absent);
    var db1 := CreateLike(db, actor, req).db;
    var n := db.likes.next;
    assert PostLikes(db1.likes.rows, actor, post) == {n};
  }
}
