/** The running store: one object whose fields are the five tables, and one
    method per request handler that looks rows up, checks the guard and then
    writes the tables in place. Each method is proved to leave exactly the
    store, and give exactly the response, that the rules in Models,
    Serializers and Views describe, and to keep the store valid. */
module Store {
  import opened Errors
  import opened Models
  import opened Serializers
  import Views

  class Blog {
    var users: Table<User>
    var profiles: Table<Profile>
    var posts: Table<Post>
    var comments: Table<Comment>
    var likes: Table<Like>

    ghost function Snapshot(): Db
      reads this
    {
      Db(users, profiles, posts, comments, likes)
    }

    ghost predicate Valid()
      reads this
    {
      Models.Valid(Snapshot())
    }

    constructor ()
      ensures Valid() && Snapshot() == EMPTY
    {
      users, profiles, posts := Table(map[], 0), Table(map[], 0), Table(map[], 0);
      comments, likes := Table(map[], 0), Table(map[], 0);
    }

    /** UserManager.create_user */
    method CreateUser(email: Option<string>, firstName: string, lastName: string, username: string, password: string)
      returns (r: Result<Id>)
      requires Valid()
      modifies this
      ensures Valid()
      ensures Outcome(Snapshot(), r) == Models.CreateUser(old(Snapshot()), email, firstName, lastName, username, password)
    {
      CreateUserKeepsValid(Snapshot(), email, firstName, lastName, username, password);
      if email.None? || email.value == "" {
        return Fail(NoEmail);
      }
      if Collides(users.rows, email, username) {
        return Fail(UserExists);
      }
      r := Ok(users.next);
      users := users.Insert(User(email, firstName, lastName, username, password));
    }

    /** POST /signup: field validation, then `create_user`. */
    method Signup(req: SignupRequest) returns (r: Result<Id>)
      requires Valid()
      modifies this
      ensures Valid()
      ensures Outcome(Snapshot(), r) == Serializers.Signup(old(Snapshot()), req)
    {
      var errors := SignupErrors(users.rows, req);
      if errors != [] {
        return Err(errors);
      }
      r := CreateUser(req.email, req.firstName.value, req.lastName.value, req.username.value, req.password.value);
    }

    /** The profile of the requesting user, as the profile handlers look it up. */
    method GetProfile(actor: Id) returns (r: Result<Profile>)
      ensures r.Err? <==> !HasProfile(profiles.rows, actor)
      ensures r.Err? ==> r == Fail(NoProfileAssociated)
      ensures r.Ok? ==> r.value.user == actor && exists p :: p in profiles.rows && profiles.rows[p] == r.value
    {
      if HasProfile(profiles.rows, actor) {
        var p :| p in profiles.rows && profiles.rows[p].user == actor;
        r := Ok(profiles.rows[p]);
      } else {
        r := Fail(NoProfileAssociated);
      }
    }

    method CreateProfile(actor: Id, req: ProfileRequest) returns (r: Result<Id>)
      requires Valid() && actor in users.rows
      modifies this
      ensures Valid()
      ensures Outcome(Snapshot(), r) == Serializers.CreateProfile(old(Snapshot()), actor, req)
    {
      CreateProfileKeepsValid(Snapshot(), actor, req);
      if req.profileImage.None? {
        return Fail(MissingField("profile_image"));
      }
      if req.biography.None? {
        return Fail(MissingKey("biography"));
      }
      if HasProfile(profiles.rows, actor) {
        return Fail(ProfileExists);
      }
      r := Ok(profiles.next);
      profiles := profiles.Insert(Profile(actor, req.biography.value, req.profileImage.value));
    }

    method CreatePost(actor: Id, req: PostFields) returns (r: Result<Id>)
      requires Valid() && actor in users.rows
      modifies this
      ensures Valid()
      ensures Outcome(Snapshot(), r) == Serializers.CreatePost(old(Snapshot()), actor, req)
    {
      CreatePostKeepsValid(Snapshot(), actor, req);
      var errors := PostErrors(req);
      if errors != [] {
        return Err(errors);
      }
      if req.content.None? {
        return Fail(MissingKey("content"));
      }
      if req.publishDate.None? {
        return Fail(MissingKey("publish_date"));
      }
      r := Ok(posts.next);
      posts := posts.Insert(Post(actor, req.title.value, req.content.value, req.publishDate.value,
                                 req.category.value, req.tags.value));
    }

    method CreateComment(actor: Id, req: CommentRequest) returns (r: Result<Id>)
      requires Valid() && actor in users.rows
      modifies this
      ensures Valid()
      ensures Outcome(Snapshot(), r) == Serializers.CreateComment(old(Snapshot()), actor, req)
    {
      CreateCommentKeepsValid(Snapshot(), actor, req);
      var errors := RequiredRelated("post", req.post, posts.rows.Keys);
      if errors != [] {
        return Err(errors);
      }
      if req.text.None? {
        return Fail(MissingKey("text"));
      }
      r := Ok(comments.next);
      comments := comments.Insert(Comment(actor, req.post.id, req.text.value));
    }

    method CreateLike(actor: Id, req: LikeRequest) returns (r: Result<string>)
      requires Valid() && actor in users.rows
      modifies this
      ensures Valid()
      ensures Outcome(Snapshot(), r) == Serializers.CreateLike(old(Snapshot()), actor, req)
    {
      CreateLikeKeepsValid(Snapshot(), actor, req);
      var errors := OptionalRelated("post", req.post, posts.rows.Keys) +
                    OptionalRelated("comment", req.comment, comments.rows.Keys);
      if errors != [] {
        return Err(errors);
      }
      if !req.post.Absent? && !req.comment.Absent? {
        return Fail(LikeBoth);
      } else if !req.comment.Absent? {
        if req.comment.Null? {
          return Fail(NullObject("comment"));
        }
        var previous := |CommentLikes(likes.rows, actor, req.comment.id)|;
        if previous == 1 {
          return Fail(AlreadyLikedComment);
        }
        likes := likes.Insert(Like(actor, None, Some(req.comment.id)));
      } else if !req.post.Absent? {
        if req.post.Null? {
          return Fail(NullObject("post"));
        }
        var previous := |PostLikes(likes.rows, actor, req.post.id)|;
        if previous == 1 {
          return Fail(AlreadyLikedPost);
        }
        likes := likes.Insert(Like(actor, Some(req.post.id), None));
      } else {
        return Fail(NoLikeTarget);
      }
      r := Ok("Liked");
    }

    method UpdatePost(actor: Id, id: Id, req: PostFields) returns (r: Result<Post>)
      requires Valid()
      modifies this
      ensures Valid()
      ensures Outcome(Snapshot(), r) == Views.UpdatePost(old(Snapshot()), actor, id, req)
    {
      Views.PostUpdatesKeepValid(Snapshot(), actor, id, req);
      if id !in posts.rows {
        return Fail(NoPostFound);
      }
      var post := posts.rows[id];
      if post.author != actor {
        return Fail(CannotUpdatePost);
      }
      var missing := Views.FirstMissingKey(req);
      if missing.Some? {
        return Fail(MissingKey(missing.value));
      }
      post := post.(title := req.title.value, content := req.content.value, publishDate := req.publishDate.value,
                    category := req.category.value, tags := req.tags.value);
      posts := posts.Put(id, post);
      r := Ok(post);
    }

    method PartialUpdatePost(actor: Id, id: Id, req: PostFields) returns (r: Result<Post>)
      requires Valid()
      modifies this
      ensures Valid()
      ensures Outcome(Snapshot(), r) == Views.PartialUpdatePost(old(Snapshot()), actor, id, req)
    {
      Views.PostUpdatesKeepValid(Snapshot(), actor, id, req);
      if id !in posts.rows {
        return Fail(NoPostFound);
      }
      if posts.rows[id].author != actor {
        return Fail(CannotUpdatePost);
      }
      var post := Views.Merge(posts.rows[id], req);
      posts := posts.Put(id, post);
      r := Ok(post);
    }

    method DestroyPost(actor: Id, id: Id) returns (r: Result<()>)
      requires Valid()
      modifies this
      ensures Valid()
      ensures Outcome(Snapshot(), r) == Views.DestroyPost(old(Snapshot()), actor, id)
    {
      Views.DestroyPostRemoves(Snapshot(), actor, id);
      if id !in posts.rows {
        return Fail(NoPostFound);
      }
      if posts.rows[id].author != actor {
        return Fail(CannotDeletePost);
      }
      var after := DeletePosts(Db(users, profiles, posts, comments, likes), {id});
      posts, comments, likes := after.posts, after.comments, after.likes;
      r := Ok(());
    }

    /** PUT and PATCH on a comment run this same code. */
    method UpdateComment(actor: Id, id: Id, text: Option<string>) returns (r: Result<Comment>)
      requires Valid()
      modifies this
      ensures Valid()
      ensures Outcome(Snapshot(), r) == Views.UpdateComment(old(Snapshot()), actor, id, text)
    {
      Views.CommentUpdateKeepsValid(Snapshot(), actor, id, text);
      if id !in comments.rows {
        return Fail(NoCommentFound);
      }
      var comment := comments.rows[id];
      if comment.user != actor {
        return Fail(CannotUpdateComment);
      }
      if text.None? {
        return Fail(MissingKey("text"));
      }
      comment := comment.(text := text.value);
      comments := comments.Put(id, comment);
      r := Ok(comment);
    }

    method DestroyComment(actor: Id, id: Id) returns (r: Result<()>)
      requires Valid()
      modifies this
      ensures Valid()
      ensures Outcome(Snapshot(), r) == Views.DestroyComment(old(Snapshot()), actor, id)
    {
      Views.DestroyCommentRemoves(Snapshot(), actor, id);
      if id !in comments.rows {
        return Fail(NoCommentFound);
      }
      if comments.rows[id].user != actor {
        return Fail(CannotDeleteComment);
      }
      var after := DeleteComments(Db(users, profiles, posts, comments, likes), {id});
      comments, likes := after.comments, after.likes;
      r := Ok(());
    }

    method DestroyLike(actor: Id, id: Id) returns (r: Result<()>)
      requires Valid()
      modifies this
      ensures Valid()
      ensures Outcome(Snapshot(), r) == Views.DestroyLike(old(Snapshot()), actor, id)
    {
      Views.DestroyLikeRemoves(Snapshot(), actor, id);
      if id !in likes.rows {
        return Fail(NoCommentFound);
      }
      if likes.rows[id].user != actor {
        return Fail(CannotDeleteComment);
      }
      likes := likes.Remove({id});
      r := Ok(());
    }

    method DestroyUser(actor: Id) returns (r: Result<()>)
      requires Valid() && actor in users.rows
      modifies this
      ensures Valid()
      ensures Outcome(Snapshot(), r) == Views.DestroyUser(old(Snapshot()), actor)
    {
      var after := DeleteUser(Db(users, profiles, posts, comments, likes), actor);
      DeleteUserKeepsValid(Snapshot(), actor);
      users, profiles, posts, comments, likes := after.users, after.profiles, after.posts, after.comments, after.likes;
      r := Ok(());
    }
  }
}
