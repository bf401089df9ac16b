/**
  How the post collection and the media store stay in step across the
  mutating operations, and the two ways the controller lets them drift.
 */
module Consistency {
  import opened ImageIds
  import opened Store
  import opened Lifecycle

  /** Creating never breaks the invariant, whatever the outcome, provided
      the media store hands out a fresh object. */
  lemma CreatePreservesValid(st: State, requester: UserId, req: CreateRequest, env: Env)
    requires Valid(st) && FreshUpload(st, env)
    ensures Valid(CreatePost(st, requester, req, env).1)
  {
  }

  /** A delete keeps the invariant unless the repository write throws after
      the image was destroyed. */
  lemma DeletePreservesValid(st: State, requester: UserId, postId: PostId, env: Env)
    requires Valid(st)
    requires !env.saveFails
    ensures Valid(DeletePost(st, requester, postId, env).1)
  {
  }

  /** A completed update keeps the invariant, provided the media store hands
      out a fresh object. */
  lemma UpdatePreservesValid(st: State, requester: UserId, postId: PostId, req: UpdateRequest, env: Env)
    requires Valid(st) && FreshUpload(st, env)
    ensures UpdatePost(st, requester, postId, req, env).0 != ServerError ==>
      Valid(UpdatePost(st, requester, postId, req, env).1)
  {
  }

  // -----------------------------------------------------------------------
  // Where the invariant does not survive

  /** `deleteImg` on a post that has no text leaves a post with neither text
      nor image, which create would have refused. */
  lemma UpdateCanEmptyPost(st: State, requester: UserId, postId: PostId, env: Env)
    requires postId in st.posts && st.posts[postId].user == requester
    requires HasImage(st.posts[postId]) && !Truthy(st.posts[postId].text)
    requires env.failingCall == None && !env.saveFails
    ensures var out := UpdatePost(st, requester, postId, UpdateRequest(None, None, true), env);
      out.0.Updated? && !HasContent(out.0.post)
  {
  }

  /** When the second destroy of an update that both drops and replaces the
      image throws, the first destroy has already removed the object, yet
      the record still points at it. */
  lemma UpdateFailureLeavesDanglingImage(st: State, requester: UserId, postId: PostId, req: UpdateRequest, env: Env)
    requires postId in st.posts && st.posts[postId].user == requester
    requires DropsImage(req, st.posts[postId]) && ReplacesImage(req, st.posts[postId])
    requires env.failingCall == Some(1)
    ensures var out := UpdatePost(st, requester, postId, req, env);
      && out.0 == ServerError
      && out.1.posts == st.posts
      && !Valid(out.1)
  {
  }

  /** When the repository delete throws after the destroy succeeded, the
      record survives while its object is gone. */
  lemma DeleteSaveFailureLeavesDanglingImage(st: State, requester: UserId, postId: PostId, env: Env)
    requires postId in st.posts && st.posts[postId].user == requester && HasImage(st.posts[postId])
    requires env.failingCall == None && env.saveFails
    ensures var out := DeletePost(st, requester, postId, env);
      && out.0 == ServerError
      && out.1.posts == st.posts
      && !Valid(out.1)
  {
  }

  /** Create a post with text and an image, then update it with only
      `deleteImg`: one upload, then one destroy of the object the stored URL
      names; the text stays and the image reference is cleared. */
  lemma CreateThenDropImage(st: State, requester: UserId, text: string, payload: string, env: Env, env2: Env)
    requires requester in st.users
    requires text != "" && payload != "" && env.uploadUrl != ""
    requires env.failingCall == None && !env.saveFails
    requires env2.failingCall == None && !env2.saveFails
    ensures
      var created := CreatePost(st, requester, CreateRequest(Some(text), Some(payload)), env);
      var updated := UpdatePost(created.1, requester, st.nextId, UpdateRequest(None, None, true), env2);
      && created.0 == Created(st.nextId, Post(requester, Some(text), Some(env.uploadUrl), env.now))
      && updated.0 == Updated(Post(requester, Some(text), None, env.now))
      && updated.1.trace == st.trace + [UploadCall(payload), DestroyCall(ImageId(env.uploadUrl))]
      && ImageId(env.uploadUrl) !in updated.1.media
  {
  }
}
