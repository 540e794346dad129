/** The request handlers that change existing rows. Each one looks the row
    up by id ("No … found" when it is absent), compares the requesting user
    with the row's owner ("You cannot … someone else …" when they differ),
    and only then overwrites fields, merges fields or deletes the row with
    its cascade. */
module Views {
  import opened Errors
  import opened Models
  import opened Serializers

  /** The first key, in assignment order, that a full post update leaves out. */
  function FirstMissingKey(req: PostFields): Option<string> {
    if req.title.None? then Some("title")
    else if req.content.None? then Some("content")
    else if req.publishDate.None? then Some("publish_date")
    else if req.category.None? then Some("category")
    else if req.tags.None? then Some("tags")
    else None
  }

  /** A post with the fields present in `req` overwritten and the rest kept. */
  function Merge(p: Post, req: PostFields): Post {
    Post(p.author,
         if req.title.Some? then req.title.value else p.title,
         if req.content.Some? then req.content.value else p.content,
         if req.publishDate.Some? then req.publishDate.value else p.publishDate,
         if req.category.Some? then req.category.value else p.category,
         if req.tags.Some? then req.tags.value else p.tags)
  }

  /** PUT on a post: every field is read from the request and assigned; a
      missing key aborts before the row is saved. */
  function UpdatePost(db: Db, actor: Id, id: Id, req: PostFields): (r: Outcome<Post>)
    ensures r.result.Err? ==> r.db == db
  {
    if id !in db.posts.rows then Outcome(db, Fail(NoPostFound))
    else if db.posts.rows[id].author != actor then Outcome(db, Fail(CannotUpdatePost))
    else if FirstMissingKey(req).Some? then Outcome(db, Fail(MissingKey(FirstMissingKey(req).value)))
    else
      var post := Merge(db.posts.rows[id], req);
      Outcome(db.(posts := db.posts.Put(id, post)), Ok(post))
  }

  /** PATCH on a post: the fields the request carries are written, unvalidated. */
  function PartialUpdatePost(db: Db, actor: Id, id: Id, req: PostFields): (r: Outcome<Post>)
    ensures r.result.Err? ==> r.db == db
  {
    if id !in db.posts.rows then Outcome(db, Fail(NoPostFound))
    else if db.posts.rows[id].author != actor then Outcome(db, Fail(CannotUpdatePost))
    else
      var post := Merge(db.posts.rows[id], req);
      Outcome(db.(posts := db.posts.Put(id, post)), Ok(post))
  }

  function DestroyPost(db: Db, actor: Id, id: Id): (r: Outcome<()>)
    ensures r.result.Err? ==> r.db == db
  {
    if id !in db.posts.rows then Outcome(db, Fail(NoPostFound))
    else if db.posts.rows[id].author != actor then Outcome(db, Fail(CannotDeletePost))
    else Outcome(DeletePosts(db, {id}), Ok(()))
  }

  /** PUT and PATCH on a comment behave alike: only `text` is read and written. */
  function UpdateComment(db: Db, actor: Id, id: Id, text: Option<string>): (r: Outcome<Comment>)
    ensures r.result.Err? ==> r.db == db
  {
    if id !in db.comments.rows then Outcome(db, Fail(NoCommentFound))
    else if db.comments.rows[id].user != actor then Outcome(db, Fail(CannotUpdateComment))
    else if text.None? then Outcome(db, Fail(MissingKey("text")))
    else
      var comment := db.comments.rows[id].(text := text.value);
      Outcome(db.(comments := db.comments.Put(id, comment)), Ok(comment))
  }

  function DestroyComment(db: Db, actor: Id, id: Id): (r: Outcome<()>)
    ensures r.result.Err? ==> r.db == db
  {
    if id !in db.comments.rows then Outcome(db, Fail(NoCommentFound))
    else if db.comments.rows[id].user != actor then Outcome(db, Fail(CannotDeleteComment))
    else Outcome(DeleteComments(db, {id}), Ok(()))
  }

  /** Deleting a like reports its errors with the comment handler's messages. */
  function DestroyLike(db: Db, actor: Id, id: Id): (r: Outcome<()>)
    ensures r.result.Err? ==> r.db == db
  {
    if id !in db.likes.rows then Outcome(db, Fail(NoCommentFound))
    else if db.likes.rows[id].user != actor then Outcome(db, Fail(CannotDeleteComment))
    else Outcome(DeleteLikes(db, {id}), Ok(()))
  }

  /** DELETE on the requesting user's own account. */
  function DestroyUser(db: Db, actor: Id): (r: Outcome<()>)
    requires Valid(db) && actor in db.users.rows
    ensures r.result.Ok? && Valid(r.db)
    ensures actor !in r.db.users.rows && !HasProfile(r.db.profiles.rows, actor)
    ensures forall p :: p in r.db.posts.rows ==> r.db.posts.rows[p].author != actor
    ensures forall c :: c in r.db.comments.rows ==> r.db.comments.rows[c].user != actor
    ensures forall l :: l in r.db.likes.rows ==> r.db.likes.rows[l].user != actor
  {
    DeleteUserKeepsValid(db, actor);
    DeleteUserExact(db, actor);
    Outcome(DeleteUser(db, actor), Ok(()))
  }

  /** Deleting one's account removes exactly the actor, their profile, their
      posts with the comments on them, their comments, and the likes that are
      theirs or are on a removed post or comment; every row that stays keeps
      its values. */
  lemma DestroyUserExact(db: Db, actor: Id)
    requires Valid(db) && actor in db.users.rows
    ensures var r := DestroyUser(db, actor);
      r.db.users.rows.Keys == db.users.rows.Keys - {actor} &&
      (forall p :: p in r.db.profiles.rows <==> (p in db.profiles.rows && db.profiles.rows[p].user != actor)) &&
      (forall p :: p in r.db.posts.rows <==> (p in db.posts.rows && db.posts.rows[p].author != actor)) &&
      (forall c :: c in r.db.comments.rows <==>
        (c in db.comments.rows && db.comments.rows[c].user != actor &&
         db.posts.rows[db.comments.rows[c].post].author != actor)) &&
      (forall l :: l in r.db.likes.rows <==>
        (l in db.likes.rows && db.likes.rows[l].user != actor &&
         LikeOutside(db, db.likes.rows[l], set p | p in db.posts.rows && db.posts.rows[p].author == actor) &&
         !(db.likes.rows[l].comment.Some? && db.comments.rows[db.likes.rows[l].comment.value].user == actor))) &&
      (forall x :: x in r.db.users.rows ==> r.db.users.rows[x] == db.users.rows[x]) &&
      (forall p :: p in r.db.profiles.rows ==>
        p in db.profiles.rows && r.db.profiles.rows[p] == db.profiles.rows[p]) &&
      (forall p :: p in r.db.posts.rows ==> p in db.posts.rows && r.db.posts.rows[p] == db.posts.rows[p]) &&
      (forall c :: c in r.db.comments.rows ==>
        c in db.comments.rows && r.db.comments.rows[c] == db.comments.rows[c]) &&
      (forall l :: l in r.db.likes.rows ==> l in db.likes.rows && r.db.likes.rows[l] == db.likes.rows[l])
  {
    DeleteUserExact(db, actor);
  }

  // ---------------------------------------------------------------------------
  // The guards

  /** A missing id is reported as not found, and a row owned by someone else
      as a forbidden change; in both cases the store is left as it was. */
  lemma PostGuards(db: Db, actor: Id, id: Id, req: PostFields)
    ensures id !in db.posts.rows ==>
      UpdatePost(db, actor, id, req) == Outcome(db, Fail(NoPostFound)) &&
      PartialUpdatePost(db, actor, id, req) == Outcome(db, Fail(NoPostFound)) &&
      DestroyPost(db, actor, id) == Outcome(db, Fail(NoPostFound))
    ensures id in db.posts.rows && db.posts.rows[id].author != actor ==>
      UpdatePost(db, actor, id, req) == Outcome(db, Fail(CannotUpdatePost)) &&
      PartialUpdatePost(db, actor, id, req) == Outcome(db, Fail(CannotUpdatePost)) &&
      DestroyPost(db, actor, id) == Outcome(db, Fail(CannotDeletePost))
  {
  }

  lemma CommentGuards(db: Db, actor: Id, id: Id, text: Option<string>)
    ensures id !in db.comments.rows ==>
      UpdateComment(db, actor, id, text) == Outcome(db, Fail(NoCommentFound)) &&
      DestroyComment(db, actor, id) == Outcome(db, Fail(NoCommentFound))
    ensures id in db.comments.rows && db.comments.rows[id].user != actor ==>
      UpdateComment(db, actor, id, text) == Outcome(db, Fail(CannotUpdateComment)) &&
      DestroyComment(db, actor, id) == Outcome(db, Fail(CannotDeleteComment))
  {
  }

  /** The like handler reuses the comment handler's messages. */
  lemma LikeGuards(db: Db, actor: Id, id: Id)
    ensures id !in db.likes.rows ==> DestroyLike(db, actor, id) == Outcome(db, Fail(NoCommentFound))
    ensures id in db.likes.rows && db.likes.rows[id].user != actor ==>
      DestroyLike(db, actor, id) == Outcome(db, Fail(CannotDeleteComment))
  {
  }

  /** Only a row's owner changes the store through these handlers. */
  lemma OnlyOwnersMutate(db: Db, actor: Id, id: Id, req: PostFields, text: Option<string>)
    ensures UpdatePost(db, actor, id, req).db != db || PartialUpdatePost(db, actor, id, req).db != db ||
            DestroyPost(db, actor, id).db != db ==>
      id in db.posts.rows && db.posts.rows[id].author == actor
    ensures UpdateComment(db, actor, id, text).db != db || DestroyComment(db, actor, id).db != db ==>
      id in db.comments.rows && db.comments.rows[id].user == actor
    ensures DestroyLike(db, actor, id).db != db ==> id in db.likes.rows && db.likes.rows[id].user == actor
  {
  }

  // ---------------------------------------------------------------------------
  // What the owner's requests do

  /** The author's full update sets exactly the five writable fields to the
      submitted values; id, author, the other posts and the other tables stay. */
  lemma UpdatePostSetsFields(db: Db, actor: Id, id: Id, req: PostFields)
    requires id in db.posts.rows && db.posts.rows[id].author == actor
    ensures var r := UpdatePost(db, actor, id, req);
      (r.result.Ok? <==> req.title.Some? && req.content.Some? && req.publishDate.Some? &&
                         req.category.Some? && req.tags.Some?) &&
      (r.result.Ok? ==>
        r.db.posts.rows.Keys == db.posts.rows.Keys &&
        r.db.posts.rows[id] == r.result.value &&
        r.db.posts.rows[id] == Post(actor, req.title.value, req.content.value, req.publishDate.value,
                                    req.category.value, req.tags.value) &&
        (forall p :: p in db.posts.rows && p != id ==> r.db.posts.rows[p] == db.posts.rows[p]) &&
        r.db.users == db.users && r.db.profiles == db.profiles &&
        r.db.comments == db.comments && r.db.likes == db.likes)
  {
  }

  /** The author's partial update changes just the fields the request carries. */
  lemma PartialUpdatePostMerges(db: Db, actor: Id, id: Id, req: PostFields)
    requires id in db.posts.rows && db.posts.rows[id].author == actor
    ensures var r := PartialUpdatePost(db, actor, id, req);
      var old_ := db.posts.rows[id];
      r.result.Ok? &&
      r.db.posts.rows.Keys == db.posts.rows.Keys &&
      var new_ := r.db.posts.rows[id];
      new_ == r.result.value && new_.author == old_.author &&
      (req.title.Some? ==> new_.title == req.title.value) && (req.title.None? ==> new_.title == old_.title) &&
      (req.content.Some? ==> new_.content == req.content.value) &&
      (req.content.None? ==> new_.content == old_.content) &&
      (req.publishDate.Some? ==> new_.publishDate == req.publishDate.value) &&
      (req.publishDate.None? ==> new_.publishDate == old_.publishDate) &&
      (req.category.Some? ==> new_.category == req.category.value) &&
      (req.category.None? ==> new_.category == old_.category) &&
      (req.tags.Some? ==> new_.tags == req.tags.value) && (req.tags.None? ==> new_.tags == old_.tags) &&
      (forall p :: p in db.posts.rows && p != id ==> r.db.posts.rows[p] == db.posts.rows[p]) &&
      r.db.users == db.users && r.db.profiles == db.profiles &&
      r.db.comments == db.comments && r.db.likes == db.likes
  {
  }

  /** A partial update that carries every field agrees with the full update. */
  lemma PartialUpdateOfAllFieldsIsUpdate(db: Db, actor: Id, id: Id, req: PostFields)
    requires FirstMissingKey(req).None?
    ensures PartialUpdatePost(db, actor, id, req) == UpdatePost(db, actor, id, req)
  {
  }

  /** The author's delete removes the post, its comments, and every like on
      either; a non-author's delete removes nothing. */
  lemma DestroyPostRemoves(db: Db, actor: Id, id: Id)
    requires Valid(db)
    ensures var r := DestroyPost(db, actor, id);
      (r.result.Ok? <==> id in db.posts.rows && db.posts.rows[id].author == actor) &&
      Valid(r.db) &&
      (r.result.Ok? ==>
        r.db.posts.rows.Keys == db.posts.rows.Keys - {id} &&
        (forall c :: c in r.db.comments.rows <==> c in db.comments.rows && db.comments.rows[c].post != id) &&
        (forall l :: l in r.db.likes.rows <==> l in db.likes.rows && LikeOutside(db, db.likes.rows[l], {id})) &&
        (forall p :: p in r.db.posts.rows ==> r.db.posts.rows[p] == db.posts.rows[p]) &&
        (forall c :: c in r.db.comments.rows ==> r.db.comments.rows[c] == db.comments.rows[c]) &&
        (forall l :: l in r.db.likes.rows ==> r.db.likes.rows[l] == db.likes.rows[l]) &&
        r.db.users == db.users && r.db.profiles == db.profiles)
  {
    if id in db.posts.rows && db.posts.rows[id].author == actor {
      assert DestroyPost(db, actor, id).db == DeletePosts(db, {id});
      DeletePostsExact(db, {id});
      DeletePostsKeepsValid(db, {id});
    }
  }

  /** The owner's comment update writes `text` and nothing else. */
  lemma UpdateCommentSetsText(db: Db, actor: Id, id: Id, text: Option<string>)
    requires id in db.comments.rows && db.comments.rows[id].user == actor
    ensures var r := UpdateComment(db, actor, id, text);
      (r.result.Ok? <==> text.Some?) &&
      (r.result.Ok? ==>
        r.db.comments.rows.Keys == db.comments.rows.Keys &&
        r.db.comments.rows[id] == r.result.value &&
        r.db.comments.rows[id].text == text.value &&
        r.db.comments.rows[id].user == db.comments.rows[id].user &&
        r.db.comments.rows[id].post == db.comments.rows[id].post &&
        (forall c :: c in db.comments.rows && c != id ==> r.db.comments.rows[c] == db.comments.rows[c]) &&
        r.db.users == db.users && r.db.profiles == db.profiles &&
        r.db.posts == db.posts && r.db.likes == db.likes)
  {
  }

  /** The owner's comment delete removes it and the likes on it. */
  lemma DestroyCommentRemoves(db: Db, actor: Id, id: Id)
    requires Valid(db)
    ensures var r := DestroyComment(db, actor, id);
      (r.result.Ok? <==> id in db.comments.rows && db.comments.rows[id].user == actor) &&
      Valid(r.db) &&
      (r.result.Ok? ==>
        r.db.comments.rows.Keys == db.comments.rows.Keys - {id} &&
        (forall l :: l in r.db.likes.rows <==> l in db.likes.rows && db.likes.rows[l].comment != Some(id)) &&
        (forall c :: c in r.db.comments.rows ==> r.db.comments.rows[c] == db.comments.rows[c]) &&
        (forall l :: l in r.db.likes.rows ==> r.db.likes.rows[l] == db.likes.rows[l]) &&
        r.db.users == db.users && r.db.profiles == db.profiles && r.db.posts == db.posts)
  {
    if id in db.comments.rows && db.comments.rows[id].user == actor {
      assert DestroyComment(db, actor, id).db == DeleteComments(db, {id});
      DeleteCommentsExact(db, {id});
      DeleteCommentsKeepsValid(db, {id});
    }
  }

  /** The owner's like delete removes that like and nothing else. */
  lemma DestroyLikeRemoves(db: Db, actor: Id, id: Id)
    requires Valid(db)
    ensures var r := DestroyLike(db, actor, id);
      (r.result.Ok? <==> id in db.likes.rows && db.likes.rows[id].user == actor) &&
      Valid(r.db) &&
      (r.result.Ok? ==>
        r.db.likes.rows == db.likes.rows - {id} &&
        r.db.users == db.users && r.db.profiles == db.profiles &&
        r.db.posts == db.posts && r.db.comments == db.comments)
  {
  }

  /** Overwriting a post's fields without changing its author keeps the store valid. */
  lemma RewritePostKeepsValid(db: Db, id: Id, post: Post)
    requires Valid(db) && id in db.posts.rows && post.author == db.posts.rows[id].author
    ensures Valid(db.(posts := db.posts.Put(id, post)))
  {
  }

  /** Full and partial post updates keep the author, so the store stays valid. */
  lemma PostUpdatesKeepValid(db: Db, actor: Id, id: Id, req: PostFields)
    requires Valid(db)
    ensures Valid(UpdatePost(db, actor, id, req).db)
    ensures Valid(PartialUpdatePost(db, actor, id, req).db)
  {
    if id in db.posts.rows {
      RewritePostKeepsValid(db, id, Merge(db.posts.rows[id], req));
    }
  }

  /** A comment update keeps the comment's user and post, so the store stays valid. */
  lemma CommentUpdateKeepsValid(db: Db, actor: Id, id: Id, text: Option<string>)
    requires Valid(db)
    ensures Valid(UpdateComment(db, actor, id, text).db)
  {
  }
}
