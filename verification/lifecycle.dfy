/**
  The mutating post operations of the post controller: create, delete and
  update. Each is a pure function from the state and the request to the
  response and the new state. The requester is the authenticated user id
  the session layer supplies.
 */
module Lifecycle {
  import opened ImageIds
  import opened Store

  /** The body of a create request. `img` is the inline image payload. */
  datatype CreateRequest = CreateRequest(text: Option<string>, img: Option<string>)

  /** The body of an update request. `img` is a new inline image payload. */
  datatype UpdateRequest = UpdateRequest(text: Option<string>, img: Option<string>, deleteImg: bool)

  /** The update asks to drop the stored image, and there is one. */
  predicate DropsImage(req: UpdateRequest, post: Post) {
    req.deleteImg && HasImage(post)
  }

  /** The update carries an image that differs from the stored reference. */
  predicate ReplacesImage(req: UpdateRequest, post: Post) {
    Truthy(req.img) && req.img != post.img
  }

  /** The media calls an authorised update issues, in order, when none
      throws: the `deleteImg` destroy, then the replacement's destroy and
      upload. Every destroy is of the stored image's object, and an upload,
      if any, comes last. */
  function UpdateCalls(req: UpdateRequest, post: Post): (calls: seq<MediaCall>)
    ensures |calls| <= 3
    ensures forall i :: 0 <= i < |calls| && calls[i].DestroyCall? ==>
      HasImage(post) && calls[i] == DestroyCall(ObjectOf(post))
    ensures forall i :: 0 <= i < |calls| && calls[i].UploadCall? ==>
      i == |calls| - 1 && ReplacesImage(req, post) && calls[i] == UploadCall(req.img.value)
    ensures ReplacesImage(req, post) ==> |calls| > 0 && calls[|calls| - 1].UploadCall?
  {
    var destroy := if HasImage(post) then [DestroyCall(ObjectOf(post))] else [];
    (if DropsImage(req, post) then destroy else [])
    + (if ReplacesImage(req, post) then destroy + [UploadCall(req.img.value)] else [])
  }

  /** Some media call among the first `n` of the operation throws. */
  predicate FailsWithin(env: Env, n: nat) {
    env.failingCall.Some? && env.failingCall.value < n
  }

  /** The post exists and belongs to the requester. */
  predicate Authorised(st: State, requester: UserId, postId: PostId) {
    postId in st.posts && st.posts[postId].user == requester
  }

  // -----------------------------------------------------------------------
  // createPost

  function CreatePost(st: State, requester: UserId, req: CreateRequest, env: Env): (out: (Response, State))
    // The requester is looked up first, the content checked second; neither
    // rejection touches anything.
    ensures requester !in st.users ==> out == (NotFound, st)
    ensures requester in st.users && !Truthy(req.text) && !Truthy(req.img) ==> out == (BadRequest, st)
    ensures out.0.Created? || out.0.NotFound? || out.0.BadRequest? || out.0.ServerError?
    ensures out.0.Created? <==>
      && requester in st.users
      && (Truthy(req.text) || Truthy(req.img))
      && !(Truthy(req.img) && FailsWithin(env, 1))
      && !env.saveFails
    // At most one media call: the upload of the request's payload.
    ensures out.1.trace == st.trace || (Truthy(req.img) && out.1.trace == st.trace + [UploadCall(req.img.value)])
    // An accepted request that stores nothing is a failure of the upload or
    // of the save, and answers ServerError.
    ensures requester in st.users && (Truthy(req.text) || Truthy(req.img)) && !out.0.Created? ==>
      out.0 == ServerError
    ensures out.1.users == st.users && out.1.usernames == st.usernames
    ensures !out.0.Created? ==> out.1.posts == st.posts && out.1.nextId == st.nextId
    ensures out.0.Created? ==>
      && out.0.id == st.nextId
      && out.1.nextId == st.nextId + 1
      && out.1.posts == st.posts[st.nextId := out.0.post]
      && out.0.post.user == requester
      && out.0.post.text == req.text
      && out.0.post.createdAt == env.now
      && HasContent(out.0.post)
    // With an image, the upload happens before the record exists, and the
    // record keeps the URL the media store answered.
    ensures out.0.Created? && Truthy(req.img) ==>
      && out.0.post.img == Some(env.uploadUrl)
      && out.1.trace == st.trace + [UploadCall(req.img.value)]
      && out.1.media == st.media + {ImageId(env.uploadUrl)}
    ensures out.0.Created? && !Truthy(req.img) ==>
      out.0.post.img == req.img && out.1.trace == st.trace && out.1.media == st.media
    // Once the request is accepted, the upload is issued whatever follows; a
    // successful upload stays in the media store even when the save then
    // throws, and one that throws adds nothing.
    ensures requester in st.users && Truthy(req.img) ==>
      && out.1.trace == st.trace + [UploadCall(req.img.value)]
      && (!FailsWithin(env, 1) ==> out.1.media == st.media + {ImageId(env.uploadUrl)})
      && (FailsWithin(env, 1) ==> out.0 == ServerError && out.1.media == st.media)
    ensures requester in st.users && Truthy(req.text) && !Truthy(req.img) ==>
      out.1.trace == st.trace && out.1.media == st.media
  {
    if requester !in st.users then (NotFound, st)
    else if !Truthy(req.text) && !Truthy(req.img) then (BadRequest, st)
    else
      var run := if Truthy(req.img) then Upload(Start(st), req.img.value, env) else Start(st);
      var img := if Truthy(req.img) then Some(env.uploadUrl) else req.img;
      if run.aborted || env.saveFails then (ServerError, run.st)
      else
        var post := Post(requester, req.text, img, env.now);
        (Created(st.nextId, post), run.st.(posts := run.st.posts[st.nextId := post], nextId := st.nextId + 1))
  }

  // -----------------------------------------------------------------------
  // deletePost

  function DeletePost(st: State, requester: UserId, postId: PostId, env: Env): (out: (Response, State))
    // Lookup first, ownership second; neither rejection touches anything.
    ensures postId !in st.posts ==> out == (NotFound, st)
    ensures postId in st.posts && st.posts[postId].user != requester ==> out == (Unauthorized, st)
    ensures out.0.Deleted? || out.0.NotFound? || out.0.Unauthorized? || out.0.ServerError?
    ensures out.0.Deleted? <==>
      && postId in st.posts
      && st.posts[postId].user == requester
      && !(HasImage(st.posts[postId]) && FailsWithin(env, 1))
      && !env.saveFails
    // An owner's request that is not carried out failed in the destroy or the
    // repository delete, and answers ServerError.
    ensures Authorised(st, requester, postId) && !out.0.Deleted? ==> out.0 == ServerError
    ensures out.1.users == st.users && out.1.usernames == st.usernames && out.1.nextId == st.nextId
    // Exactly the one post goes; the rest stay as they were.
    ensures out.0.Deleted? ==> out.1.posts == st.posts - {postId}
    ensures !out.0.Deleted? ==> out.1.posts == st.posts
    // The image, if any, is destroyed, and that happens before the record goes.
    ensures Authorised(st, requester, postId) && HasImage(st.posts[postId]) ==>
      out.1.trace == st.trace + [DestroyCall(ObjectOf(st.posts[postId]))]
    // A successful destroy stays done even when the repository delete then
    // throws; a destroy that throws leaves the media store as it was.
    ensures Authorised(st, requester, postId) && HasImage(st.posts[postId]) ==>
      && (!FailsWithin(env, 1) ==> out.1.media == st.media - {ObjectOf(st.posts[postId])})
      && (FailsWithin(env, 1) ==> out.0 == ServerError && out.1.media == st.media)
    ensures !Authorised(st, requester, postId) || !HasImage(st.posts[postId]) ==>
      out.1.trace == st.trace && out.1.media == st.media
  {
    if postId !in st.posts then (NotFound, st)
    else
      var post := st.posts[postId];
      if post.user != requester then (Unauthorized, st)
      else
        var run := if HasImage(post) then Destroy(Start(st), ObjectOf(post), env) else Start(st);
        if run.aborted || env.saveFails then (ServerError, run.st)
        else (Deleted, run.st.(posts := run.st.posts - {postId}))
  }

  // -----------------------------------------------------------------------
  // updatePost

  /** `text || post.text`: a non-empty requested text wins, anything else
      keeps the stored one. */
  function MergeText(requested: Option<string>, stored: Option<string>): (t: Option<string>)
    ensures Truthy(requested) ==> t == requested
    ensures !Truthy(requested) ==> t == stored
    ensures Truthy(t) <==> Truthy(requested) || Truthy(stored)
  {
    if Truthy(requested) then requested else stored
  }

  function UpdatePost(st: State, requester: UserId, postId: PostId, req: UpdateRequest, env: Env): (out: (Response, State))
    ensures postId !in st.posts ==> out == (NotFound, st)
    ensures postId in st.posts && st.posts[postId].user != requester ==> out == (Unauthorized, st)
    ensures out.0.Updated? || out.0.NotFound? || out.0.Unauthorized? || out.0.ServerError?
    ensures out.0.Updated? <==>
      && Authorised(st, requester, postId)
      && !FailsWithin(env, |UpdateCalls(req, st.posts[postId])|)
      && !env.saveFails
    // An owner's request that is not carried out failed in a media call or
    // the save, and answers ServerError.
    ensures Authorised(st, requester, postId) && !out.0.Updated? ==> out.0 == ServerError
    ensures out.1.users == st.users && out.1.usernames == st.usernames && out.1.nextId == st.nextId
    ensures !out.0.Updated? ==> out.1.posts == st.posts
    // Only the one post changes; owner and creation time never do, and an
    // empty or absent text keeps the stored one.
    ensures out.0.Updated? ==>
      var prior := st.posts[postId];
      && out.1.posts == st.posts[postId := out.0.post]
      && out.0.post.user == prior.user
      && out.0.post.createdAt == prior.createdAt
      && (Truthy(req.text) ==> out.0.post.text == req.text)
      && (!Truthy(req.text) ==> out.0.post.text == prior.text)
    // The stored image: a new, different one wins even when `deleteImg` is
    // also set; `deleteImg` alone clears it; otherwise it stays.
    ensures out.0.Updated? && ReplacesImage(req, st.posts[postId]) ==>
      out.0.post.img == Some(env.uploadUrl)
    ensures out.0.Updated? && !ReplacesImage(req, st.posts[postId]) && DropsImage(req, st.posts[postId]) ==>
      out.0.post.img == None
    ensures out.0.Updated? && !ReplacesImage(req, st.posts[postId]) && !DropsImage(req, st.posts[postId]) ==>
      out.0.post.img == st.posts[postId].img
    // When no media call throws (whether or not the save then does): a new,
    // different image destroys the old object (twice when `deleteImg` is also
    // set) and then uploads; `deleteImg` alone destroys the old object once;
    // otherwise the media store is not called.
    ensures Authorised(st, requester, postId) && !FailsWithin(env, |UpdateCalls(req, st.posts[postId])|) ==>
      var prior := st.posts[postId];
      && out.1.trace == st.trace + UpdateCalls(req, prior)
      && (ReplacesImage(req, prior) && DropsImage(req, prior) ==>
            out.1.trace == st.trace + [DestroyCall(ObjectOf(prior)), DestroyCall(ObjectOf(prior)), UploadCall(req.img.value)])
      && (ReplacesImage(req, prior) && !DropsImage(req, prior) && HasImage(prior) ==>
            out.1.trace == st.trace + [DestroyCall(ObjectOf(prior)), UploadCall(req.img.value)])
      && (ReplacesImage(req, prior) && !HasImage(prior) ==> out.1.trace == st.trace + [UploadCall(req.img.value)])
      && (ReplacesImage(req, prior) && HasImage(prior) ==>
            out.1.media == (st.media - {ObjectOf(prior)}) + {ImageId(env.uploadUrl)})
      && (ReplacesImage(req, prior) && !HasImage(prior) ==> out.1.media == st.media + {ImageId(env.uploadUrl)})
      && (!ReplacesImage(req, prior) && DropsImage(req, prior) ==>
            out.1.trace == st.trace + [DestroyCall(ObjectOf(prior))] && out.1.media == st.media - {ObjectOf(prior)})
      && (!ReplacesImage(req, prior) && !DropsImage(req, prior) ==>
            out.1.trace == st.trace && out.1.media == st.media)
    // A media call that throws is the last one issued; only the destroys
    // before it took effect.
    ensures Authorised(st, requester, postId) && FailsWithin(env, |UpdateCalls(req, st.posts[postId])|) ==>
      var prior := st.posts[postId];
      var k := env.failingCall.value;
      && out.0 == ServerError
      && out.1.trace == st.trace + UpdateCalls(req, prior)[..k + 1]
      && (k == 0 ==> out.1.media == st.media)
      && (k > 0 ==> HasImage(prior) && out.1.media == st.media - {ObjectOf(prior)})
  {
    if postId !in st.posts then (NotFound, st)
    else
      var post := st.posts[postId];
      if post.user != requester then (Unauthorized, st)
      else
        var drop := DropsImage(req, post);
        var replace := ReplacesImage(req, post);
        var run1 := if drop then Destroy(Start(st), ObjectOf(post), env) else Start(st);
        var run2 := if replace && HasImage(post) then Destroy(run1, ObjectOf(post), env) else run1;
        var run3 := if replace then Upload(run2, req.img.value, env) else run2;
        assert run3.aborted <==> FailsWithin(env, |UpdateCalls(req, post)|);
        var img := if replace then Some(env.uploadUrl) else if drop then None else post.img;
        if run3.aborted || env.saveFails then (ServerError, run3.st)
        else
          var updated := post.(text := MergeText(req.text, post.text), img := img);
          (Updated(updated), run3.st.(posts := run3.st.posts[postId := updated]))
  }
}
