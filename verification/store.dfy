/**
  The abstract state the post controller works against: the user collection,
  the post collection, the media store (a set of object ids), and the trace of
  calls issued to the media store. Also the outside world each operation
  depends on (clock, upload URL, which remote call throws) and the steps that
  issue one media call.
 */
module Store {
  import opened ImageIds

  datatype Option<T> = None | Some(value: T)

  type UserId = nat
  type PostId = nat

  /** JavaScript truthiness of an optional string field: present and non-empty. */
  predicate Truthy(s: Option<string>) {
    s.Some? && s.value != ""
  }

  /** A stored post. `text` and `img` keep whatever the request carried,
      including an empty string; `img` is a media-store URL once uploaded. */
  datatype Post = Post(user: UserId, text: Option<string>, img: Option<string>, createdAt: nat)

  /** The controller's `if (post.img)`. */
  predicate HasImage(p: Post) {
    Truthy(p.img)
  }

  /** The media object the post's image lives in. */
  function ObjectOf(p: Post): string
    requires HasImage(p)
  {
    ImageId(p.img.value)
  }

  /** A post with a non-empty text or an image reference. */
  predicate HasContent(p: Post) {
    Truthy(p.text) || p.img.Some?
  }

  datatype MediaCall = UploadCall(payload: string) | DestroyCall(publicId: string)

  datatype State = State(
    users: set<UserId>,
    usernames: map<string, UserId>,
    posts: map<PostId, Post>,
    nextId: PostId,
    media: set<string>,
    trace: seq<MediaCall>)

  /** What the rest of the world contributes to one operation: the creation
      time, the URL the media store answers an upload with, the position
      (counting from 0 within this operation) of the media call that throws,
      if any, and whether the repository write throws. */
  datatype Env = Env(now: nat, uploadUrl: string, failingCall: Option<nat>, saveFails: bool)

  /** One feed item. */
  datatype Entry = Entry(id: PostId, post: Post)

  /** What a controller answers, one constructor per response shape. */
  datatype Response =
    | Created(id: PostId, post: Post)
    | Deleted
    | Updated(post: Post)
    | Listed(feed: seq<Entry>)
    | NotFound
    | Unauthorized
    | BadRequest
    | ServerError

  /** The state part-way through an operation: how many media calls it has
      issued, and whether one of them threw (after which nothing else runs). */
  datatype Run = Run(st: State, issued: nat, aborted: bool)

  function Start(st: State): Run {
    Run(st, 0, false)
  }

  /** `cloudinary.uploader.destroy(publicId)`. Destroying an absent object
      is not an error. */
  function Destroy(run: Run, publicId: string, env: Env): (r: Run)
    ensures && r.st.posts == run.st.posts && r.st.users == run.st.users
            && r.st.usernames == run.st.usernames && r.st.nextId == run.st.nextId
    // Once a call has thrown, later calls do nothing; otherwise this call is
    // the next one issued, and it throws exactly when it is the failing one.
    ensures run.aborted ==> r == run
    ensures !run.aborted ==> r.issued == run.issued + 1 && (r.aborted <==> env.failingCall == Some(run.issued))
    ensures !run.aborted ==> r.st.trace == run.st.trace + [DestroyCall(publicId)]
    ensures r.aborted ==> r.st.media == run.st.media
    ensures !r.aborted ==> r.st.media == run.st.media - {publicId}
  {
    if run.aborted then run
    else
      var st := run.st.(trace := run.st.trace + [DestroyCall(publicId)]);
      if env.failingCall == Some(run.issued) then Run(st, run.issued + 1, true)
      else Run(st.(media := st.media - {publicId}), run.issued + 1, false)
  }

  /** `cloudinary.uploader.upload(payload)`, answering `env.uploadUrl`; the
      stored object is the one that URL names. */
  function Upload(run: Run, payload: string, env: Env): (r: Run)
    ensures && r.st.posts == run.st.posts && r.st.users == run.st.users
            && r.st.usernames == run.st.usernames && r.st.nextId == run.st.nextId
    // Once a call has thrown, later calls do nothing; otherwise this call is
    // the next one issued, and it throws exactly when it is the failing one.
    ensures run.aborted ==> r == run
    ensures !run.aborted ==> r.issued == run.issued + 1 && (r.aborted <==> env.failingCall == Some(run.issued))
    ensures !run.aborted ==> r.st.trace == run.st.trace + [UploadCall(payload)]
    ensures r.aborted ==> r.st.media == run.st.media
    ensures !r.aborted ==> r.st.media == run.st.media + {ImageId(env.uploadUrl)}
  {
    if run.aborted then run
    else
      var st := run.st.(trace := run.st.trace + [UploadCall(payload)]);
      if env.failingCall == Some(run.issued) then Run(st, run.issued + 1, true)
      else Run(st.(media := st.media + {ImageId(env.uploadUrl)}), run.issued + 1, false)
  }

  /** The state is one the controller can keep working from: post ids are
      below the next id, every owner is a known user, the username index
      points at known users, every post image names a live media object, and
      no two posts share a media object. */
  ghost predicate Valid(st: State) {
    && st.usernames.Values <= st.users
    && (forall id :: id in st.posts ==> id < st.nextId)
    && (forall id :: id in st.posts ==> st.posts[id].user in st.users)
    && (forall id :: id in st.posts && HasImage(st.posts[id]) ==> ObjectOf(st.posts[id]) in st.media)
    && (forall a, b ::
          a in st.posts && b in st.posts && a != b && HasImage(st.posts[a]) && HasImage(st.posts[b])
          ==> ObjectOf(st.posts[a]) != ObjectOf(st.posts[b]))
  }

  /** The media store hands out an object nobody holds yet. */
  predicate FreshUpload(st: State, env: Env) {
    ImageId(env.uploadUrl) !in st.media
  }
}
