# Post lifecycle model

A Dafny model of the post controller of a small social app
(`backend/controllers/post.controller.js`). A post has an owner, an optional
text, an optional image, and a creation time. The image is uploaded to a
remote media store (Cloudinary), and the post keeps the URL the store
returns. The controller creates, deletes and updates posts. It also lists
all posts, or one user's posts, newest first.

The model is a small state machine over abstract stores:

- `Store.State`: the known user ids, a username index, the post collection
  (`map<PostId, Post>`), the next post id, the media store (a set of object
  ids), and the trace of media calls (`UploadCall(payload)`,
  `DestroyCall(publicId)`) in the order they were issued.
- `Store.Env`: what the outside world contributes to one operation. That is
  the creation time, the URL an upload answers with, which media call of the
  operation throws (counted from 0), and whether the repository write
  throws. A call that throws is still in the trace, and nothing after it runs.
  This matches the controller's single `try`/`catch`, which answers 500.
- `Lifecycle.CreatePost`, `DeletePost`, `UpdatePost`: pure functions from the
  state and the request to a `Response` and the new state.
- `Feed.AllPosts`, `Feed.UserPosts`: methods that sort a collection newest
  first and return it as `Listed(feed)`.
- `ImageIds.ImageId`: the id derived from a stored URL,
  `url.split("/").pop().split(".")[0]`. `Split` models JavaScript's `split`
  with a one-character separator.

JavaScript truthiness of the `text` and `img` fields is `Store.Truthy`: the
field is present and non-empty. An empty string is kept as sent, like the
controller does.

`Store.Valid` is the consistency invariant:
- every post id is below the next id;
- every owner is a known user;
- the username index points at known users;
- every image a post refers to names a live media object;
- no two posts share a media object.

Notable behaviour of the controller, as modelled:

- An update that sends both `deleteImg` and a new, different `img` runs both
  image branches. The old object is destroyed twice, and the new URL wins.
- An update or delete can throw after a destroy has already succeeded. This
  happens when a later media call throws, or when the save throws. The record
  is then left unchanged, pointing at a destroyed object.
- An update with `deleteImg` on a post that has no text leaves a post with
  neither text nor image. Create would have refused such a post.
- `updatePost` is not wired to any route (`backend/routes/post.routes.js`).
  It is modelled as an operation, not as a reachable endpoint.

## Model

| member | source | states |
|---|---|---|
| `ImageIds.Split` | backend/controllers/post.controller.js:49 | `split` always yields at least one piece, and no piece contains the separator |
| `ImageIds.JoinSplit` | backend/controllers/post.controller.js:49 | joining the pieces of a split with the separator gives back the original string |
| `ImageIds.SplitJoin` | backend/controllers/post.controller.js:49 | splitting separator-free pieces joined by the separator gives back exactly those pieces |
| `ImageIds.ImageId` | backend/controllers/post.controller.js:49 | the derived id contains neither `/` nor `.` |
| `ImageIds.ImageIdCharacterized` | backend/controllers/post.controller.js:83 | an id is the derived id of a URL if and only if it is the part of the last `/`-segment before that segment's first `.` |
| `ImageIds.ImageIdOfStoredUrl` | backend/controllers/post.controller.js:94 | `https://store/abc.jpg` yields `abc` |
| `ImageIds.ImageIdOfDoubleExtension` | backend/controllers/post.controller.js:94 | only the first period ends the id: `x1y2.tar.gz` yields `x1y2` |
| `Lifecycle.CreatePost` | backend/controllers/post.controller.js:5-35 | an unknown requester gets NotFound first, and a request with neither text nor image gets BadRequest second, both with no effect. At most one media call happens: the upload of the payload, issued for every accepted request with an image. A created post is owned by the requester, keeps the text as sent and stores the uploaded URL under a fresh id. An accepted request that stores no post answers ServerError: the upload or the save threw. A successful upload stays in the media store even when the save then throws; one that throws adds nothing. Users and the username index never change |
| `Lifecycle.DeletePost` | backend/controllers/post.controller.js:37-60 | a missing post gets NotFound and another user gets Unauthorized, both with no effect. An owner's request destroys the image's derived object first. Only when that and the repository delete succeed is exactly that post removed, with every other post unchanged; otherwise an owner's request answers ServerError. A successful destroy stays done even when the delete then throws; a destroy that throws leaves the media store as it was. Users, the username index and the next id never change |
| `Store.Upload` | backend/controllers/post.controller.js:19-20 | once an earlier call has thrown, an upload does nothing; otherwise it is the next call issued, it throws exactly when it is the failing call, and it is recorded in the trace; when it succeeds the object its URL names is added to the media store, and when it throws the media store is unchanged; posts, users, the username index and the next id are never touched |
| `Store.Destroy` | backend/controllers/post.controller.js:50 | once an earlier call has thrown, a destroy does nothing; otherwise it is the next call issued, it throws exactly when it is the failing call, and it is recorded in the trace; when it succeeds exactly that object leaves the media store (an absent object is no error), and when it throws the media store is unchanged; posts, users, the username index and the next id are never touched |
| `Lifecycle.MergeText` | backend/controllers/post.controller.js:102 | a non-empty requested text wins; an absent or empty one keeps the stored text; the result is empty exactly when both are |
| `Lifecycle.UpdatePost` | backend/controllers/post.controller.js:62-113 | NotFound or Unauthorized leave everything unchanged. A successful update keeps owner and creation time and uses the new text only if it is non-empty. A new, different image destroys the old object (twice when `deleteImg` is also set), then uploads the payload, and the new URL wins. `deleteImg` alone clears the image after destroying it. Otherwise image and media are untouched. These media effects hold whenever no media call throws, even if the save then does. A media call that throws ends the run: the trace holds the calls up to and including it, and only the destroys before it took effect. Any media or save failure answers ServerError to the owner and leaves the post collection unchanged. Users, the username index and the next id never change |
| `Consistency.CreatePreservesValid` | backend/controllers/post.controller.js:18-29 | whatever create answers, the consistency invariant survives, provided the upload yields an unused object |
| `Consistency.DeletePreservesValid` | backend/controllers/post.controller.js:48-53 | a delete whose repository write does not throw keeps the invariant: other posts' objects stay live |
| `Consistency.UpdatePreservesValid` | backend/controllers/post.controller.js:78-105 | an update that does not end in ServerError keeps the invariant, provided the upload yields an unused object |
| `Consistency.UpdateCanEmptyPost` | backend/controllers/post.controller.js:81-103 | `deleteImg` on an image-only post succeeds and leaves a post with neither text nor image |
| `Consistency.UpdateFailureLeavesDanglingImage` | backend/controllers/post.controller.js:81-99 | when the second media call of a drop-and-replace update throws, the record is unchanged but its object is already gone, so the invariant breaks |
| `Consistency.DeleteSaveFailureLeavesDanglingImage` | backend/controllers/post.controller.js:48-55 | when the repository delete throws after the destroy, the record survives without its object |
| `Consistency.CreateThenDropImage` | backend/controllers/post.controller.js:81-89 | create with text and image, then update with only `deleteImg`: the trace is one upload then one destroy of the stored URL's id, the text stays and the image is cleared |
| `Feed.Insert` | backend/controllers/post.controller.js:118 | inserting into a newest-first list keeps it newest first and adds exactly that item |
| `Feed.PostsOf` | backend/controllers/post.controller.js:142 | the owner query holds exactly the posts whose owner is the given user, each as stored |
| `Feed.InsertKeepsDistinct` | backend/controllers/post.controller.js:118 | inserting an item with an unseen id keeps ids distinct |
| `Feed.SortedFeed` | backend/controllers/post.controller.js:117-118 | the result lists every post of the collection once, as stored, newest first |
| `Feed.AllPosts` | backend/controllers/post.controller.js:115-133 | `getAllPosts` answers a newest-first permutation of all posts, and an empty list for an empty collection |
| `Feed.EmptyStoreEmptyFeed` | backend/controllers/post.controller.js:124-126 | a feed is empty exactly when the collection is empty |
| `Feed.FeedIsPermutation` | backend/controllers/post.controller.js:117-118 | a feed has as many items as there are posts, and holds each post with its id |
| `Feed.DistinctIdsCount` | backend/controllers/post.controller.js:117 | a list with distinct ids has as many ids as items |
| `Feed.UserPosts` | backend/controllers/post.controller.js:135-154 | an unknown username gets NotFound (and only then); otherwise the answer lists exactly that user's posts, newest first |
| `Feed.OwnedBy` | backend/controllers/post.controller.js:142 | filtering by owner keeps only that owner's items and keeps newest-first order |
| `Feed.OwnedByKeepsAll` | backend/controllers/post.controller.js:142 | filtering by owner drops none of that owner's items |
| `Feed.UserFeedIsFilteredFeed` | backend/controllers/post.controller.js:142-143 | filtering any valid full feed by owner gives a valid feed of exactly that owner's posts, newest first, so the per-user query's order agrees with the full feed's up to posts with equal `createdAt` |

## Left out

- The owner lookup with `select: "-password"` is left out (`populate`, lines 119-122 and 144-147). The user model is not part of this model. Feed items carry the owner id, not the joined profile.
- `updatedAt` and the schema's timestamps are left out. The post schema is not part of this model. `createdAt` is the `now` supplied with the create request.
- Failures of the reads (`findById`, `find`, `findOne`) are left out. Only the repository writes and the media calls can throw in the model. `Feed.AllPosts` and `Feed.UserPosts` therefore never answer ServerError.
- Cloudinary's own public id is assumed to equal the id derived from its URL. A successful upload adds `ImageId(url)` to the media store. Folder-qualified public ids are therefore not modelled.
- Destroying an absent object is not an error, as in Cloudinary. Only a call that throws aborts.
- Request fields are modelled as strings, and `deleteImg` as a boolean. JavaScript coercions of other JSON types are not modelled. For example, the string `"false"` is truthy.
- Logging, HTTP status codes and JSON bodies are left out, beyond the choice of `Response` constructor.
- Concurrent requests and races between updates are left out.
- Rolling back an upload whose save then fails is left out. That case is a ServerError that leaves an unreferenced object in the media store.
- Routing, server bootstrap, the authentication middleware and the frontend are left out. The requester id is a parameter.
- Feed.AllPosts: ties in `createdAt` may come in any order. The repository's sort does not fix their order either.
- Feed.UserPosts: ties in `createdAt` may come in any order, for the same reason. The per-user feed and the full feed therefore need not list one user's equal-time posts in the same order.
