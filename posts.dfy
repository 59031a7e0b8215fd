/**
 * The post handlers of handler/post.go: a read of one user's posts and an
 * insert that takes the author from the request body.
 */
module Posts {
  import opened Wrappers
  import opened Records
  import opened Query
  import opened Responses
  import opened Store
  import opened Strconv

  /** The condition `user_id = ?` on the post table. */
  function WrittenBy(u: int): Post -> bool {
    (p: Post) => p.userId == u
  }

  /** GetPostFromUser: the posts of the user named by the path id, in table order. */
  function GetPostFromUser(posts: seq<Post>, rawId: string, outcome: Outcome): (r: Response)
    ensures Atoi(rawId).None? ==> r == Response(StatusBadRequest, "Invalid user ID", NoData)
    ensures Atoi(rawId).Some? && outcome.Err? ==> r == Response(StatusInternalServerError, "Error fetching posts", NoData)
    ensures Atoi(rawId).Some? && outcome.Ok? ==>
              (r.status == StatusNotFound <==> forall p :: p in posts ==> p.userId != Atoi(rawId).value)
    ensures r.status == StatusNotFound ==> r == Response(StatusNotFound, "No posts found for user with ID " + rawId, NoData)
    ensures r.status == StatusOK ==>
              && r.data == PostList(Where(posts, WrittenBy(Atoi(rawId).value)))
              && forall p :: p in r.data.posts <==> p in posts && p.userId == Atoi(rawId).value
    ensures Atoi(rawId).Some? && outcome.Ok? && (exists p :: p in posts && p.userId == Atoi(rawId).value) ==>
              r == Response(StatusOK, "", PostList(Where(posts, WrittenBy(Atoi(rawId).value))))
  {
    match Atoi(rawId)
    case None => Response(StatusBadRequest, "Invalid user ID", NoData)
    case Some(id) =>
      if outcome.Err? then Response(StatusInternalServerError, "Error fetching posts", NoData)
      else
        var selected := Where(posts, WrittenBy(id));
        if selected == [] then Response(StatusNotFound, "No posts found for user with ID " + rawId, NoData)
        else
          assert selected[0] in selected;
          Response(StatusOK, "", PostList(selected))
  }

  /** CreatePost: one row as parsed from the body; the author is the body's user_id, not the caller. */
  method CreatePost(db: Database, body: Option<PostInput>, outcome: Outcome) returns (resp: Response)
    requires db.Valid()
    modifies db`posts, db`nextPostId
    ensures db.Valid()
    ensures resp.status != StatusOK ==> db.posts == old(db.posts) && db.nextPostId == old(db.nextPostId)
    ensures body.None? ==> resp == Response(StatusBadRequest, "Invalid request body", NoData)
    ensures body.Some? && outcome.Err? ==> resp == Response(StatusInternalServerError, "Error creating post", NoData)
    ensures body.Some? && outcome.Ok? ==>
              var stored := Post(old(db.nextPostId), body.value.title, body.value.body, body.value.userId);
              && db.posts == old(db.posts) + [stored]
              && db.nextPostId == old(db.nextPostId) + 1
              && resp == Response(StatusOK, "Post created successfully", OnePost(stored))
  {
    if body.None? {
      return Response(StatusBadRequest, "Invalid request body", NoData);
    }
    var input := body.value;
    var stored := db.InsertPost(Post(0, input.title, input.body, input.userId), outcome);
    if stored.None? {
      return Response(StatusInternalServerError, "Error creating post", NoData);
    }
    resp := Response(StatusOK, "Post created successfully", OnePost(stored.value));
  }
}
