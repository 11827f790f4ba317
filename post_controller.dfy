/** What the post handlers of controllers/postController.js compute from a
    request and the stored records: the record createPost saves, the merge
    updatePost applies, and the two read queries. The handlers themselves,
    which change the store, are the methods of ContentStore.Store. */
module PostController {
  import opened Common
  import opened Text
  import opened Tables
  import opened Sorting
  import opened PostModel

  const MSG_DUPLICATE_TITLE: string := "A post with similar title exists. Use a different title."
  const MSG_CREATED: string := "Post created"
  const MSG_CREATE_FAILED: string := "Failed to create post"
  const MSG_NOT_FOUND: string := "Post not found"
  const MSG_UPDATE_FORBIDDEN: string := "You are not authorized to update this post"
  const MSG_UPDATED: string := "Post updated"
  const MSG_UPDATE_FAILED: string := "Failed to update post"
  const MSG_DELETE_FORBIDDEN: string := "Not authorized to delete this post"
  const MSG_DELETED: string := "Post deleted successfully"

  /** The record createPost saves: `Post.create` with the slug of the title,
      the acting user as author and the ids of the find-or-create loop, passed
      through the pre-validate hook. */
  function CreatedRecord(id: Id, input: PostInput, author: Id, ids: seq<Id>, now: int, slugify: string -> string): (p: Post)
    requires input.title.Some?
    ensures p.id == id && p.author == author && p.categories == ids && IsTrimmed(p.title)
  {
    SlugHook(NewRecord(id, input, SlugFor(slugify, input.title.value), author, ids, now), slugify)
  }

  /** A created post belongs to the acting user, carries the loop's category
      ids, and its slug is the slug of the title as given (the hook only fills
      it in, from the trimmed title, when that slug is empty). */
  lemma CreatedRecordFields(id: Id, input: PostInput, author: Id, ids: seq<Id>, now: int, slugify: string -> string)
    requires input.title.Some?
    ensures var p := CreatedRecord(id, input, author, ids, now, slugify);
      && p.id == id && p.author == author && p.categories == ids
      && p.title == Trim(input.title.value)
      && p.createdAt == now && p.updatedAt == now
      && (SlugFor(slugify, input.title.value) != "" ==> p.slug == SlugFor(slugify, input.title.value))
      && (SlugFor(slugify, input.title.value) == "" && p.title != "" ==> p.slug == SlugFor(slugify, p.title))
  {
  }

  /** Lines 118-128 of updatePost on a loaded post. Each string field is
      `field || post.field`, and the title goes through its `trim` setter.
      The tags are replaced by any supplied array, even an empty one. The
      categories are replaced only by a non-empty id list. The slug is
      regenerated only when the supplied title differs from `post.title` read
      back after the assignment, which is the trimmed title. The id, the
      author and both timestamps are never assigned. */
  function Merged(p: Post, input: PostInput, ids: seq<Id>, slugify: string -> string): (r: Post)
    ensures r.id == p.id && r.author == p.author && IsTrimmed(r.title)
    ensures r.createdAt == p.createdAt && r.updatedAt == p.updatedAt
  {
    var title := Trim(OrElse(input.title, p.title));
    p.(
      title := title,
      content := OrElse(input.content, p.content),
      coverImage := OrElse(input.coverImage, p.coverImage),
      videoUrl := OrElse(input.videoUrl, p.videoUrl),
      tags := input.tags.GetOr(p.tags),
      language := OrElse(input.language, p.language),
      categories := if |ids| > 0 then ids else p.categories,
      slug := if Truthy(input.title) && input.title.value != title then SlugFor(slugify, input.title.value) else p.slug)
  }

  /** The record updatePost saves: the merge, then the pre-validate hook, then
      the `timestamps` hook, which sets `updatedAt` only when the save
      modifies some field (Mongoose compares each assigned value with the
      stored one). */
  function UpdatedRecord(p: Post, input: PostInput, ids: seq<Id>, now: int, slugify: string -> string): (r: Post)
    ensures r.id == p.id && r.author == p.author && r.createdAt == p.createdAt
    ensures r == p || r.updatedAt == now
  {
    var q := SlugHook(Merged(p, input, ids, slugify), slugify);
    if q == p then p else q.(updatedAt := now)
  }

  /** The shallow merge, field by field: a falsy field keeps the stored value,
      a supplied tags array replaces the tags, a non-empty id list replaces the
      categories, and the id, author and creation time never change. */
  lemma UpdateMerge(p: Post, input: PostInput, ids: seq<Id>, now: int, slugify: string -> string)
    requires IsTrimmed(p.title)
    ensures var r := UpdatedRecord(p, input, ids, now, slugify);
      && r.title == (if Truthy(input.title) then Trim(input.title.value) else p.title)
      && r.content == (if Truthy(input.content) then input.content.value else p.content)
      && r.coverImage == (if Truthy(input.coverImage) then input.coverImage.value else p.coverImage)
      && r.videoUrl == (if Truthy(input.videoUrl) then input.videoUrl.value else p.videoUrl)
      && r.language == (if Truthy(input.language) then input.language.value else p.language)
      && r.tags == (if input.tags.Some? then input.tags.value else p.tags)
      && r.categories == (if ids != [] then ids else p.categories)
      && r.id == p.id && r.author == p.author && r.createdAt == p.createdAt
      && r.updatedAt == (if r.(updatedAt := p.updatedAt) == p then p.updatedAt else now)
  {
    var m := Merged(p, input, ids, slugify);
    MergedFields(p, input, ids, slugify);
    assert SlugHook(m, slugify) == m.(slug := SlugHook(m, slugify).slug);
    UpdatedRecordStamps(p, input, ids, now, slugify);
    UpdatedAtRule(p, input, ids, now, slugify);
  }

  /** The fields UpdateMerge gives, on the merge before the hooks. */
  lemma MergedFields(p: Post, input: PostInput, ids: seq<Id>, slugify: string -> string)
    requires IsTrimmed(p.title)
    ensures var q := Merged(p, input, ids, slugify);
      && q.title == (if Truthy(input.title) then Trim(input.title.value) else p.title)
      && q.content == (if Truthy(input.content) then input.content.value else p.content)
      && q.coverImage == (if Truthy(input.coverImage) then input.coverImage.value else p.coverImage)
      && q.videoUrl == (if Truthy(input.videoUrl) then input.videoUrl.value else p.videoUrl)
      && q.language == (if Truthy(input.language) then input.language.value else p.language)
      && q.tags == (if input.tags.Some? then input.tags.value else p.tags)
      && q.categories == (if ids != [] then ids else p.categories)
      && q.id == p.id && q.author == p.author && q.createdAt == p.createdAt
  {
    TrimOfTrimmed(p.title);
    assert ids != [] <==> |ids| > 0;
  }

  /** `updatedAt` moves exactly when some other field of the saved record differs from the stored one. */
  lemma UpdatedAtRule(p: Post, input: PostInput, ids: seq<Id>, now: int, slugify: string -> string)
    ensures var r := UpdatedRecord(p, input, ids, now, slugify);
      r.updatedAt == (if r.(updatedAt := p.updatedAt) == p then p.updatedAt else now)
  {
    var q := SlugHook(Merged(p, input, ids, slugify), slugify);
    if q != p {
      assert q.updatedAt == p.updatedAt;
      assert UpdatedRecord(p, input, ids, now, slugify).(updatedAt := p.updatedAt) == q;
    }
  }

  /** The saved record is the hooked merge with the timestamp the `timestamps`
      hook chose. */
  lemma UpdatedRecordStamps(p: Post, input: PostInput, ids: seq<Id>, now: int, slugify: string -> string)
    ensures var r := UpdatedRecord(p, input, ids, now, slugify);
      r == SlugHook(Merged(p, input, ids, slugify), slugify).(updatedAt := r.updatedAt)
  {
    var q := SlugHook(Merged(p, input, ids, slugify), slugify);
    if q == p {
      assert UpdatedRecord(p, input, ids, now, slugify) == p;
    }
  }

  /** A request body with no fields (`{}`) leaves a stored post exactly as it
      was, `updatedAt` included, as long as the post has a slug for the hook
      to keep. */
  lemma EmptyUpdateChangesNothing(p: Post, now: int, slugify: string -> string)
    requires IsTrimmed(p.title) && p.slug != ""
    ensures UpdatedRecord(p, PostInput(None, None, None, None, None, [], None), [], now, slugify) == p
  {
    TrimOfTrimmed(p.title);
  }

  /** The slug regeneration at line 126 can only fire when the supplied title has
      space at either end (the `trim` setter made `post.title` differ from it),
      and the hook only when the stored slug is empty. So a stored slug survives
      every update whose title, if any, has no surrounding space. */
  lemma UpdateSlugChange(p: Post, input: PostInput, ids: seq<Id>, now: int, slugify: string -> string)
    ensures var r := UpdatedRecord(p, input, ids, now, slugify);
      r.slug != p.slug ==> p.slug == "" || (Truthy(input.title) && !IsTrimmed(input.title.value))
  {
  }

  /** What the slug becomes. Line 126 gives the slug of the title as supplied
      when that title has space at either end; otherwise the stored slug
      stays. The pre-validate hook then fills a slug that is still empty from
      the saved (trimmed) title, when there is one. */
  lemma UpdateSlug(p: Post, input: PostInput, ids: seq<Id>, now: int, slugify: string -> string)
    ensures var r := UpdatedRecord(p, input, ids, now, slugify);
      var given := if Truthy(input.title) && !IsTrimmed(input.title.value)
        then SlugFor(slugify, input.title.value) else p.slug;
      r.slug == (if given == "" && r.title != "" then SlugFor(slugify, r.title) else given)
  {
    UpdatedRecordStamps(p, input, ids, now, slugify);
    if Truthy(input.title) && IsTrimmed(input.title.value) {
      TrimOfTrimmed(input.title.value);
    }
  }

  lemma UpdateKeepsSlug(p: Post, input: PostInput, ids: seq<Id>, now: int, slugify: string -> string)
    requires p.slug != ""
    requires Truthy(input.title) ==> IsTrimmed(input.title.value)
    ensures UpdatedRecord(p, input, ids, now, slugify).slug == p.slug
  {
    UpdateSlugChange(p, input, ids, now, slugify);
  }

  /** The order of getAllPosts: newest first. */
  predicate NewestFirst(a: Post, b: Post) {
    a.createdAt >= b.createdAt
  }

  /** getAllPosts: `Post.find().sort({ createdAt: -1 })` over a table whose keys are below `n`. */
  function ListPosts(posts: map<Id, Post>, n: nat): (r: seq<Post>)
    requires forall k :: k in posts ==> k < n
    ensures multiset(r) == multiset(Rows(posts, n))
    ensures forall p :: p in r <==> p in posts.Values
    ensures SortedBy(r, NewestFirst)
  {
    SortBySorted(Rows(posts, n), NewestFirst);
    RowsAreValues(posts, n);
    var r := SortBy(Rows(posts, n), NewestFirst);
    assert forall p :: p in r <==> p in multiset(r);
    r
  }

  /** getPostBySlug: `Post.findOne({ slug })` over a table whose keys are below
      `n`; 404 exactly when no post has the slug. */
  function FindPostBySlug(posts: map<Id, Post>, n: nat, slug: string): (r: Reply<Post>)
    requires forall k :: k in posts ==> k < n
    ensures r.status == STATUS_NOT_FOUND <==> !SlugTaken(posts, slug)
    ensures r.status == STATUS_NOT_FOUND ==> r == Reply(STATUS_NOT_FOUND, MSG_NOT_FOUND, None)
    ensures r.status != STATUS_NOT_FOUND ==>
      r.status == STATUS_OK && r.data.Some? && r.data.value in posts.Values && r.data.value.slug == slug
  {
    match FindBySlug(posts, n, slug)
    case Some(k) => Reply(STATUS_OK, "", Some(posts[k]))
    case None => Reply(STATUS_NOT_FOUND, MSG_NOT_FOUND, None)
  }
}
