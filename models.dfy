/** The blog's relational store: users, profiles, posts, comments and likes,
    the uniqueness and nullability constraints declared on them, the user
    manager's `create_user`, and the deletions that `on_delete=CASCADE`
    carries from a row to the rows that reference it. */
module Models {
  import opened Errors

  type Id = nat

  /** Seconds since the epoch; only stored, never computed with. */
  type Timestamp = nat

  datatype Option<T> = None | Some(value: T)

  /** A table: its rows by primary key, and the next key its sequence hands out. */
  datatype Table<T> = Table(rows: map<Id, T>, next: Id)
  {
    function Insert(v: T): Table<T> {
      Table(rows[next := v], next + 1)
    }

    function Remove(ids: set<Id>): Table<T> {
      Table(rows - ids, next)
    }

    function Put(id: Id, v: T): Table<T> {
      Table(rows[id := v], next)
    }

    ghost predicate KeysIssued() {
      forall id :: id in rows ==> id < next
    }
  }

  /** `password` stands for the stored credential; hashing is not modelled. */
  datatype User = User(email: Option<string>, firstName: string, lastName: string, username: string, password: string)

  datatype Profile = Profile(user: Id, biography: string, profileImage: string)

  datatype Post = Post(author: Id, title: string, content: string, publishDate: Option<Timestamp>,
                       category: string, tags: seq<string>)

  datatype Comment = Comment(user: Id, post: Id, text: string)

  /** The schema lets both `post` and `comment` be null; `LikesTargeted` says which rows arise. */
  datatype Like = Like(user: Id, post: Option<Id>, comment: Option<Id>)

  datatype Db = Db(users: Table<User>, profiles: Table<Profile>, posts: Table<Post>,
                   comments: Table<Comment>, likes: Table<Like>)

  /** What a request leaves behind: the store after it, and its response. */
  datatype Outcome<T> = Outcome(db: Db, result: Result<T>)

  const EMPTY: Db := Db(Table(map[], 0), Table(map[], 0), Table(map[], 0), Table(map[], 0), Table(map[], 0))

  // ---------------------------------------------------------------------------
  // Constraints

  /** `username` is unique, and so is `email` where it is not null. */
  ghost predicate UsersUnique(users: map<Id, User>) {
    forall i, j :: i in users && j in users && i != j ==>
      users[i].username != users[j].username &&
      (users[i].email.Some? ==> users[i].email != users[j].email)
  }

  /** `Profile.user` is a one-to-one link to an existing user. */
  ghost predicate ProfilesValid(db: Db) {
    (forall p :: p in db.profiles.rows ==> db.profiles.rows[p].user in db.users.rows) &&
    (forall p, q ::
      (p in db.profiles.rows && q in db.profiles.rows && db.profiles.rows[p].user == db.profiles.rows[q].user)
      ==> p == q)
  }

  ghost predicate PostsValid(db: Db) {
    forall p :: p in db.posts.rows ==> db.posts.rows[p].author in db.users.rows
  }

  ghost predicate CommentsValid(db: Db) {
    forall c :: c in db.comments.rows ==>
      db.comments.rows[c].user in db.users.rows && db.comments.rows[c].post in db.posts.rows
  }

  /** Each like has an existing owner and exactly one existing target. */
  ghost predicate LikesTargeted(db: Db) {
    forall l :: l in db.likes.rows ==>
      var like := db.likes.rows[l];
      like.user in db.users.rows &&
      like.post.Some? != like.comment.Some? &&
      (like.post.Some? ==> like.post.value in db.posts.rows) &&
      (like.comment.Some? ==> like.comment.value in db.comments.rows)
  }

  /** No user likes the same post, or the same comment, twice. */
  ghost predicate LikesUnique(likes: map<Id, Like>) {
    (forall l, m ::
      (l in likes && m in likes && likes[l].user == likes[m].user &&
       likes[l].post.Some? && likes[l].post == likes[m].post)
      ==> l == m) &&
    (forall l, m ::
      (l in likes && m in likes && likes[l].user == likes[m].user &&
       likes[l].comment.Some? && likes[l].comment == likes[m].comment)
      ==> l == m)
  }

  /** The invariant every request keeps when requests run one after another. */
  ghost predicate Valid(db: Db) {
    db.users.KeysIssued() && db.profiles.KeysIssued() && db.posts.KeysIssued() &&
    db.comments.KeysIssued() && db.likes.KeysIssued() &&
    UsersUnique(db.users.rows) && ProfilesValid(db) && PostsValid(db) && CommentsValid(db) &&
    LikesTargeted(db) && LikesUnique(db.likes.rows)
  }

  // ---------------------------------------------------------------------------
  // Like counts, as `Like.objects.filter(user=…, post=…).count()` sees them

  function PostLikes(likes: map<Id, Like>, user: Id, post: Id): set<Id> {
    set l | l in likes && likes[l].user == user && likes[l].post == Some(post)
  }

  function CommentLikes(likes: map<Id, Like>, user: Id, comment: Id): set<Id> {
    set l | l in likes && likes[l].user == user && likes[l].comment == Some(comment)
  }

  lemma {:induction false} PostLikesAtMostOne(likes: map<Id, Like>, user: Id, post: Id)
    requires LikesUnique(likes)
    ensures |PostLikes(likes, user, post)| <= 1
  {
    var s := PostLikes(likes, user, post);
    if s != {} {
      var l :| l in s;
      assert s == {l};
    }
  }

  lemma {:induction false} CommentLikesAtMostOne(likes: map<Id, Like>, user: Id, comment: Id)
    requires LikesUnique(likes)
    ensures |CommentLikes(likes, user, comment)| <= 1
  {
    var s := CommentLikes(likes, user, comment);
    if s != {} {
      var l :| l in s;
      assert s == {l};
    }
  }

  // ---------------------------------------------------------------------------
  // UserManager.create_user

  /** Some stored user already holds this username, or this (non-null) email. */
  predicate Collides(users: map<Id, User>, email: Option<string>, username: string) {
    exists i :: i in users && (users[i].username == username || (email.Some? && users[i].email == email))
  }

  /** A missing or empty email is refused; any unique-constraint violation on
      save is reported with the email message, whichever column caused it. */
  function CreateUser(db: Db, email: Option<string>, firstName: string, lastName: string,
                      username: string, password: string): (r: Outcome<Id>)
    ensures r.result.Err? ==> r.db == db
    ensures email.None? || email == Some("") ==> r.result == Fail(NoEmail)
    ensures email.Some? && email.value != "" ==>
      (r.result.Ok? <==> !Collides(db.users.rows, email, username)) &&
      (Collides(db.users.rows, email, username) ==> r.result == Fail(UserExists))
    ensures r.result.Ok? ==>
      r.result.value == db.users.next &&
      r.db == db.(users := db.users.Insert(User(email, firstName, lastName, username, password)))
  {
    if email.None? || email.value == "" then
      Outcome(db, Fail(NoEmail))
    else if Collides(db.users.rows, email, username) then
      Outcome(db, Fail(UserExists))
    else
      Outcome(db.(users := db.users.Insert(User(email, firstName, lastName, username, password))), Ok(db.users.next))
  }

  lemma CreateUserKeepsValid(db: Db, email: Option<string>, firstName: string, lastName: string,
                             username: string, password: string)
    requires Valid(db)
    ensures Valid(CreateUser(db, email, firstName, lastName, username, password).db)
  {
  }

  /** A username clash reaching `create_user` is reported as an email clash. */
  lemma CreateUserUsernameClashSaysEmail(db: Db, email: string, firstName: string, lastName: string,
                                         username: string, password: string)
    requires email != ""
    requires exists i :: i in db.users.rows && db.users.rows[i].username == username
    ensures CreateUser(db, Some(email), firstName, lastName, username, password).result == Fail(UserExists)
    ensures Message(UserExists) == "A user with that email already exists."
  {
  }

  // ---------------------------------------------------------------------------
  // Cascading deletes

  function DeleteLikes(db: Db, ls: set<Id>): Db {
    db.(likes := db.likes.Remove(ls))
  }

  /** Deleting comments deletes the likes on them. */
  function DeleteComments(db: Db, cs: set<Id>): Db {
    var onThem := set l | l in db.likes.rows && db.likes.rows[l].comment.Some? &&
                          db.likes.rows[l].comment.value in cs;
    db.(comments := db.comments.Remove(cs), likes := db.likes.Remove(onThem))
  }

  /** Deleting posts deletes the likes on them, and their comments with the likes on those. */
  function DeletePosts(db: Db, ps: set<Id>): Db {
    var comments := set c | c in db.comments.rows && db.comments.rows[c].post in ps;
    var onThem := set l | l in db.likes.rows && db.likes.rows[l].post.Some? &&
                          db.likes.rows[l].post.value in ps;
    DeleteComments(db.(posts := db.posts.Remove(ps), likes := db.likes.Remove(onThem)), comments)
  }

  /** Deleting a user deletes their posts, their comments, their likes and their profile. */
  function DeleteUser(db: Db, u: Id): Db {
    var db1 := DeletePosts(db, set p | p in db.posts.rows && db.posts.rows[p].author == u);
    var db2 := DeleteComments(db1, set c | c in db1.comments.rows && db1.comments.rows[c].user == u);
    var db3 := DeleteLikes(db2, set l | l in db2.likes.rows && db2.likes.rows[l].user == u);
    DropUser(db3, u)
  }

  /** The last step of deleting a user: the user row and its profile go. */
  function DropUser(db: Db, u: Id): Db {
    var profiles := set p | p in db.profiles.rows && db.profiles.rows[p].user == u;
    db.(profiles := db.profiles.Remove(profiles), users := db.users.Remove({u}))
  }

  /** A like survives the deletion of the posts in `ps` exactly when its
      target is neither one of them nor a comment on one of them. */
  ghost predicate LikeOutside(db: Db, like: Like, ps: set<Id>) {
    !(like.post.Some? && like.post.value in ps) &&
    !(like.comment.Some? && like.comment.value in db.comments.rows &&
      db.comments.rows[like.comment.value].post in ps)
  }

  lemma DeletePostsExact(db: Db, ps: set<Id>)
    ensures var r := DeletePosts(db, ps);
      r.users == db.users && r.profiles == db.profiles &&
      r.posts.rows.Keys == db.posts.rows.Keys - ps &&
      (forall p :: p in r.posts.rows ==> r.posts.rows[p] == db.posts.rows[p]) &&
      (forall c :: c in r.comments.rows <==> c in db.comments.rows && db.comments.rows[c].post !in ps) &&
      (forall c :: c in r.comments.rows ==> r.comments.rows[c] == db.comments.rows[c]) &&
      (forall l :: l in r.likes.rows <==> l in db.likes.rows && LikeOutside(db, db.likes.rows[l], ps)) &&
      (forall l :: l in r.likes.rows ==> r.likes.rows[l] == db.likes.rows[l])
  {
  }

  lemma DeletePostsKeepsValid(db: Db, ps: set<Id>)
    requires Valid(db)
    ensures Valid(DeletePosts(db, ps))
  {
  }

  lemma DeleteCommentsKeepsValid(db: Db, cs: set<Id>)
    requires Valid(db)
    ensures Valid(DeleteComments(db, cs))
  {
  }

  lemma DeleteLikesKeepsValid(db: Db, ls: set<Id>)
    requires Valid(db)
    ensures Valid(DeleteLikes(db, ls))
  {
  }

  lemma DeleteCommentsExact(db: Db, cs: set<Id>)
    ensures var r := DeleteComments(db, cs);
      r.users == db.users && r.profiles == db.profiles && r.posts == db.posts &&
      r.comments.rows.Keys == db.comments.rows.Keys - cs &&
      (forall c :: c in r.comments.rows ==> r.comments.rows[c] == db.comments.rows[c]) &&
      (forall l :: l in r.likes.rows <==>
        (l in db.likes.rows && !(db.likes.rows[l].comment.Some? && db.likes.rows[l].comment.value in cs))) &&
      (forall l :: l in r.likes.rows ==> r.likes.rows[l] == db.likes.rows[l])
  {
  }

  /** Once nothing but profiles refers to `u`, dropping `u` with its profile keeps the store valid. */
  lemma DropUserKeepsValid(db: Db, u: Id)
    requires Valid(db)
    requires forall p :: p in db.posts.rows ==> db.posts.rows[p].author != u
    requires forall c :: c in db.comments.rows ==> db.comments.rows[c].user != u
    requires forall l :: l in db.likes.rows ==> db.likes.rows[l].user != u
    ensures Valid(DropUser(db, u))
  {
  }

  lemma DeleteUserKeepsValid(db: Db, u: Id)
    requires Valid(db)
    ensures Valid(DeleteUser(db, u))
  {
    var ps := set p | p in db.posts.rows && db.posts.rows[p].author == u;
    var db1 := DeletePosts(db, ps);
    DeletePostsKeepsValid(db, ps);
    DeletePostsExact(db, ps);
    var cs := set c | c in db1.comments.rows && db1.comments.rows[c].user == u;
    var db2 := DeleteComments(db1, cs);
    DeleteCommentsKeepsValid(db1, cs);
    DeleteCommentsExact(db1, cs);
    var ls := set l | l in db2.likes.rows && db2.likes.rows[l].user == u;
    var db3 := DeleteLikes(db2, ls);
    DeleteLikesKeepsValid(db2, ls);
    assert forall p :: p in db3.posts.rows ==> db3.posts.rows[p].author != u;
    assert forall c :: c in db3.comments.rows ==> db3.comments.rows[c].user != u;
    assert forall l :: l in db3.likes.rows ==> db3.likes.rows[l].user != u;
    DropUserKeepsValid(db3, u);
  }

  /** After a user is deleted nothing refers to them any more, and every
      row that did not depend on them is still there. */
  lemma DeleteUserExact(db: Db, u: Id)
    requires Valid(db)
    ensures var r := DeleteUser(db, u);
      r.users.rows.Keys == db.users.rows.Keys - {u} &&
      (forall p :: p in r.profiles.rows <==> (p in db.profiles.rows && db.profiles.rows[p].user != u)) &&
      (forall p :: p in r.posts.rows <==> (p in db.posts.rows && db.posts.rows[p].author != u)) &&
      (forall c :: c in r.comments.rows <==>
        (c in db.comments.rows && db.comments.rows[c].user != u &&
         db.posts.rows[db.comments.rows[c].post].author != u)) &&
      (forall l :: l in r.likes.rows <==>
        (l in db.likes.rows && db.likes.rows[l].user != u &&
         LikeOutside(db, db.likes.rows[l], set p | p in db.posts.rows && db.posts.rows[p].author == u) &&
         !(db.likes.rows[l].comment.Some? && db.comments.rows[db.likes.rows[l].comment.value].user == u))) &&
      (forall x :: x in r.users.rows ==> r.users.rows[x] == db.users.rows[x]) &&
      (forall p :: p in r.profiles.rows ==> r.profiles.rows[p] == db.profiles.rows[p]) &&
      (forall p :: p in r.posts.rows ==> r.posts.rows[p] == db.posts.rows[p]) &&
      (forall c :: c in r.comments.rows ==> r.comments.rows[c] == db.comments.rows[c]) &&
      (forall l :: l in r.likes.rows ==> r.likes.rows[l] == db.likes.rows[l])
  {
  }
}
