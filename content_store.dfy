/** The content store: the post and category collections, and the handlers of
    controllers/postController.js and routes/categoryController.js that read
    and change them, one request at a time. */
module ContentStore {
  import opened Common
  import opened Tables
  import opened Sorting
  import opened PostModel
  import opened CategoryController
  import opened PostController

  const MSG_NAME_REQUIRED: string := "Category name required"
  const MSG_ALREADY_EXISTS: string := "Already exists"
  const MSG_CATEGORY_CREATED: string := "Category created"

  /** Keys below the next id, records carrying their keys, every stored post
      valid under the schema, unique slugs, and every category a post refers
      to present in the category table. */
  ghost predicate StoreValid(posts: map<Id, Post>, nextPostId: Id, categories: CategoryTable) {
    && categories.Valid() && categories.NamesUnique()
    && (forall k :: k in posts ==> k < nextPostId && posts[k].id == k && PostModel.Valid(posts[k]))
    && (forall k, c :: k in posts && c in posts[k].categories ==> c in categories.rows)
    && SlugsUnique(posts)
  }

  /** Categories are only ever added, so what the posts refer to stays there. */
  lemma StoreValidAfterCategories(posts: map<Id, Post>, n: Id, t: CategoryTable, u: CategoryTable)
    requires StoreValid(posts, n, t) && u.Valid() && u.NamesUnique() && Extends(t, u)
    ensures StoreValid(posts, n, u)
  {
  }

  /** Saving a record under a key below the counter, past the validators and
      the unique index, with categories that exist, keeps the invariant. */
  lemma StoreValidAfterSave(posts: map<Id, Post>, n: Id, t: CategoryTable, id: Id, p: Post)
    requires StoreValid(posts, n, t)
    requires id < n && p.id == id && Saveable(posts - {id}, p)
    requires forall c :: c in p.categories ==> c in t.rows
    ensures StoreValid(posts[id := p], n, t)
  {
    SaveKeepsSlugsUnique(posts, id, p);
  }

  /** Inserting a new record under the counter, past the validators and the
      unique index, with categories that exist, keeps the invariant once the
      counter moves on. */
  lemma StoreValidAfterInsert(posts: map<Id, Post>, n: Id, t: CategoryTable, p: Post)
    requires StoreValid(posts, n, t)
    requires p.id == n && Saveable(posts, p)
    requires forall c :: c in p.categories ==> c in t.rows
    ensures StoreValid(posts[n := p], n + 1, t)
  {
    assert posts - {n} == posts;
    SaveKeepsSlugsUnique(posts, n, p);
  }

  /** Lines 119-124 of updatePost: each string field becomes `field || post.field`,
      a supplied tags array replaces the tags, a non-empty id list the categories. */
  method AssignFields(post: PostDocument, input: PostInput, ids: seq<Id>)
    modifies post
    ensures var p := old(post.Record());
      post.Record() == p.(
        content := OrElse(input.content, p.content),
        coverImage := OrElse(input.coverImage, p.coverImage),
        videoUrl := OrElse(input.videoUrl, p.videoUrl),
        tags := input.tags.GetOr(p.tags),
        language := OrElse(input.language, p.language),
        categories := if |ids| > 0 then ids else p.categories)
  {
    post.content := OrElse(input.content, post.content);
    post.coverImage := OrElse(input.coverImage, post.coverImage);
    post.videoUrl := OrElse(input.videoUrl, post.videoUrl);
    post.tags := input.tags.GetOr(post.tags);
    post.language := OrElse(input.language, post.language);
    post.categories := if |ids| > 0 then ids else post.categories;
  }

  /** Lines 118-130 of updatePost on the loaded document: the merge, the slug
      regeneration, and the pre-validate and `timestamps` hooks that run as
      the document is saved; the second sets `updatedAt` only when some field
      was modified. */
  method ApplyUpdate(post: PostDocument, input: PostInput, ids: seq<Id>, now: int, slugify: string -> string)
    modifies post
    ensures post.Record() == UpdatedRecord(old(post.Record()), input, ids, now, slugify)
  {
    var before := post.Record();
    post.SetTitle(OrElse(input.title, post.title));
    AssignFields(post, input, ids);
    if Truthy(input.title) && input.title.value != post.title {
      post.slug := SlugFor(slugify, input.title.value);
    }
    post.PreValidate(slugify);
    assert post.Record() == SlugHook(Merged(before, input, ids, slugify), slugify);
    UpdatedRecordStamps(before, input, ids, now, slugify);
    if post.Record() != before {
      post.Touch(now);
    }
  }

  /** One turn of the category loop: the category called `name` if there is
      one, otherwise a new one under the next id. */
  method FindOrCreateStep(t: CategoryTable, name: string, actor: Id) returns (id: Id, t2: CategoryTable)
    requires t.Valid()
    ensures (id, t2) == FindOrCreate(t, name, actor)
  {
    var found := FindByName(t, name);
    if found.Some? {
      id, t2 := found.value, t;
    } else {
      id := t.nextId;
      t2 := CategoryTable(t.rows[id := Category(id, name, actor)], id + 1);
    }
  }

  class Store {
    var posts: map<Id, Post>
    var nextPostId: Id
    var categories: CategoryTable
    /** `slugify(title, { lower: true, strict: true })`; the library is not modelled. */
    const slugify: string -> string

    /** The invariant of the two collections (see StoreValid). */
    ghost predicate Valid()
      reads this
    {
      StoreValid(posts, nextPostId, categories)
    }

    constructor (slugify: string -> string)
      ensures Valid() && this.slugify == slugify
      ensures posts == map[] && categories.rows == map[]
    {
      this.slugify := slugify;
      posts, nextPostId := map[], 0;
      categories := CategoryTable(map[], 0);
    }

    /** The find-or-create loop shared by createPost and updatePost: one id per
        name, in order, creating each missing category for the acting user. */
    method FindOrCreateCategories(names: seq<string>, actor: Id) returns (ids: seq<Id>)
      requires Valid()
      modifies this`categories
      ensures Valid()
      ensures (ids, categories) == ResolveNames(old(categories), names, actor)
      ensures forall c :: c in ids ==> c in categories.rows
    {
      var table := categories;
      ids := [];
      var i := 0;
      while i < |names|
        invariant 0 <= i <= |names|
        invariant categories == old(categories)
        invariant (ids, table) == ResolveNames(categories, names[..i], actor)
      {
        ResolveNamesLast(categories, names[..i + 1], actor);
        assert names[..i + 1][..i] == names[..i] && names[..i + 1][i] == names[i];
        var id;
        id, table := FindOrCreateStep(table, names[i], actor);
        ids := ids + [id];
        i := i + 1;
      }
      assert names[..i] == names;
      ResolveNamesKeepsNamesUnique(categories, names, actor);
      StoreValidAfterCategories(posts, nextPostId, categories, table);
      categories := table;
    }

    /** Saving a document (`Post.create`, `post.save()`): the schema's
        validators and the unique index on the slug either let the record in
        under its id, replacing what was stored there, or leave the collection
        as it was. */
    method Save(p: Post) returns (saved: bool)
      requires Valid() && p.id < nextPostId
      requires forall c :: c in p.categories ==> c in categories.rows
      modifies this`posts
      ensures Valid()
      ensures saved <==> Saveable(old(posts) - {p.id}, p)
      ensures saved ==> posts == old(posts)[p.id := p]
      ensures !saved ==> posts == old(posts)
    {
      if !Saveable(posts - {p.id}, p) {
        return false;
      }
      StoreValidAfterSave(posts, nextPostId, categories, p.id, p);
      posts := posts[p.id := p];
      return true;
    }

    /** `Post.create`: the new record takes the next id, which stays used up
        whether or not the validators and the unique index let the record in. */
    method Insert(p: Post) returns (saved: bool)
      requires Valid() && p.id == nextPostId
      requires forall c :: c in p.categories ==> c in categories.rows
      modifies this`posts, this`nextPostId
      ensures Valid() && nextPostId == old(nextPostId) + 1
      ensures saved <==> Saveable(old(posts), p)
      ensures saved ==> posts == old(posts)[p.id := p]
      ensures !saved ==> posts == old(posts)
    {
      nextPostId := nextPostId + 1;
      assert posts - {p.id} == posts;
      saved := Save(p);
    }

    /** createPost. A missing title fails with 500 (slugify throws on it); a
        slug some post already has fails with 400 before anything changes.
        Otherwise the category loop runs, the new document takes the next id,
        and the post is saved if it passes validation and the unique index
        (201), or not at all (500; the categories and the used id stay). */
    method CreatePost(input: PostInput, actor: Actor, now: int) returns (reply: Reply<Post>)
      requires Valid()
      modifies this
      ensures Valid()
      ensures input.title.None? ==>
        reply == Reply(STATUS_SERVER_ERROR, MSG_CREATE_FAILED, None) && unchanged(this)
      ensures input.title.Some? && SlugTaken(old(posts), SlugFor(slugify, input.title.value)) ==>
        reply == Reply(STATUS_BAD_REQUEST, MSG_DUPLICATE_TITLE, None) && unchanged(this)
      ensures input.title.Some? && !SlugTaken(old(posts), SlugFor(slugify, input.title.value)) ==>
        var resolved := ResolveNames(old(categories), input.categories, actor.id);
        var p := CreatedRecord(old(nextPostId), input, actor.id, resolved.0, now, slugify);
        && categories == resolved.1
        && nextPostId == old(nextPostId) + 1
        && (Saveable(old(posts), p) ==>
              reply == Reply(STATUS_CREATED, MSG_CREATED, Some(p)) && posts == old(posts)[p.id := p])
        && (!Saveable(old(posts), p) ==>
              reply == Reply(STATUS_SERVER_ERROR, MSG_CREATE_FAILED, None) && posts == old(posts))
    {
      if input.title.None? {
        return Reply(STATUS_SERVER_ERROR, MSG_CREATE_FAILED, None);
      }
      var slug := SlugFor(slugify, input.title.value);
      var existing := FindBySlug(posts, nextPostId, slug);
      if existing.Some? {
        return Reply(STATUS_BAD_REQUEST, MSG_DUPLICATE_TITLE, None);
      }
      reply := CreateUnique(input, slug, actor, now);
    }

    /** The part of createPost past the duplicate check: the category loop, the
        new document under the next id, the pre-validate hook and the save. */
    method CreateUnique(input: PostInput, slug: string, actor: Actor, now: int) returns (reply: Reply<Post>)
      requires Valid() && input.title.Some? && slug == SlugFor(slugify, input.title.value)
      modifies this
      ensures Valid()
      ensures var resolved := ResolveNames(old(categories), input.categories, actor.id);
        var p := CreatedRecord(old(nextPostId), input, actor.id, resolved.0, now, slugify);
        && categories == resolved.1
        && nextPostId == old(nextPostId) + 1
        && reply == (if Saveable(old(posts), p) then Reply(STATUS_CREATED, MSG_CREATED, Some(p))
                     else Reply(STATUS_SERVER_ERROR, MSG_CREATE_FAILED, None))
        && posts == (if Saveable(old(posts), p) then old(posts)[p.id := p] else old(posts))
    {
      var p := BuildCreated(input, slug, actor, now);
      var saved := Insert(p);
      if !saved {
        return Reply(STATUS_SERVER_ERROR, MSG_CREATE_FAILED, None);
      }
      reply := Reply(STATUS_CREATED, MSG_CREATED, Some(p));
    }

    /** The document createPost builds: the categories are resolved first,
        then the new post takes the next id and runs the pre-validate hook. */
    method BuildCreated(input: PostInput, slug: string, actor: Actor, now: int) returns (p: Post)
      requires Valid() && input.title.Some? && slug == SlugFor(slugify, input.title.value)
      modifies this`categories
      ensures Valid() && p.id == nextPostId
      ensures var resolved := ResolveNames(old(categories), input.categories, actor.id);
        && categories == resolved.1
        && p == CreatedRecord(nextPostId, input, actor.id, resolved.0, now, slugify)
      ensures forall c :: c in p.categories ==> c in categories.rows
    {
      var ids := FindOrCreateCategories(input.categories, actor.id);
      var doc := new PostDocument.Build(nextPostId, input, slug, actor.id, ids, now);
      doc.PreValidate(slugify);
      p := doc.Record();
      assert p == CreatedRecord(nextPostId, input, actor.id, ids, now, slugify);
    }

    /** getAllPosts: every post, newest first. */
    function GetAllPosts(): (r: seq<Post>)
      reads this
      requires Valid()
      ensures forall p :: p in r <==> p in posts.Values
      ensures multiset(r) == multiset(Rows(posts, nextPostId))
      ensures SortedBy(r, NewestFirst)
    {
      ListPosts(posts, nextPostId)
    }

    /** getPostBySlug: the post with that slug, or 404. */
    function GetPostBySlug(slug: string): (r: Reply<Post>)
      reads this
      requires Valid()
      ensures r.status == STATUS_NOT_FOUND <==> !SlugTaken(posts, slug)
      ensures r.status != STATUS_NOT_FOUND ==>
        r.status == STATUS_OK && r.data.Some? && r.data.value in posts.Values && r.data.value.slug == slug
    {
      FindPostBySlug(posts, nextPostId, slug)
    }

    /** updatePost. An unknown id is 404 and an actor who is neither the author
        nor an admin 403, both before anything changes. Otherwise the category
        loop runs, then the merged record is saved if it passes validation and
        the unique index (200), or not at all (500, the categories stay). */
    method UpdatePost(id: Id, input: PostInput, actor: Actor, now: int) returns (reply: Reply<Post>)
      requires Valid()
      modifies this
      ensures Valid()
      ensures id !in old(posts) ==>
        reply == Reply(STATUS_NOT_FOUND, MSG_NOT_FOUND, None) && unchanged(this)
      ensures id in old(posts) && !MayModify(actor, old(posts)[id].author) ==>
        reply == Reply(STATUS_FORBIDDEN, MSG_UPDATE_FORBIDDEN, None) && unchanged(this)
      ensures id in old(posts) && MayModify(actor, old(posts)[id].author) ==>
        var resolved := ResolveNames(old(categories), input.categories, actor.id);
        var p := UpdatedRecord(old(posts)[id], input, resolved.0, now, slugify);
        && categories == resolved.1 && nextPostId == old(nextPostId)
        && (Saveable(old(posts) - {id}, p) ==>
              reply == Reply(STATUS_OK, MSG_UPDATED, Some(p)) && posts == old(posts)[id := p])
        && (!Saveable(old(posts) - {id}, p) ==>
              reply == Reply(STATUS_SERVER_ERROR, MSG_UPDATE_FAILED, None) && posts == old(posts))
    {
      if id !in posts {
        return Reply(STATUS_NOT_FOUND, MSG_NOT_FOUND, None);
      }
      if posts[id].author != actor.id && actor.role != AdminRole {
        return Reply(STATUS_FORBIDDEN, MSG_UPDATE_FORBIDDEN, None);
      }
      reply := UpdateAuthorized(id, input, actor, now);
    }

    /** The part of updatePost past the checks: the category loop, the merge
        on the loaded document, and the save. */
    method UpdateAuthorized(id: Id, input: PostInput, actor: Actor, now: int) returns (reply: Reply<Post>)
      requires Valid() && id in posts
      modifies this
      ensures Valid()
      ensures var resolved := ResolveNames(old(categories), input.categories, actor.id);
        var p := UpdatedRecord(old(posts)[id], input, resolved.0, now, slugify);
        && categories == resolved.1 && nextPostId == old(nextPostId)
        && reply == (if Saveable(old(posts) - {id}, p) then Reply(STATUS_OK, MSG_UPDATED, Some(p))
                     else Reply(STATUS_SERVER_ERROR, MSG_UPDATE_FAILED, None))
        && posts == (if Saveable(old(posts) - {id}, p) then old(posts)[id := p] else old(posts))
    {
      var p := MergeLoaded(id, input, actor, now);
      var saved := Save(p);
      if !saved {
        return Reply(STATUS_SERVER_ERROR, MSG_UPDATE_FAILED, None);
      }
      reply := Reply(STATUS_OK, MSG_UPDATED, Some(p));
    }

    /** The category loop and the merge on the loaded document; the posts are
        not touched yet, and the merged record refers only to stored
        categories. */
    method MergeLoaded(id: Id, input: PostInput, actor: Actor, now: int) returns (p: Post)
      requires Valid() && id in posts
      modifies this`categories
      ensures Valid() && p.id == id && p.id < nextPostId
      ensures var resolved := ResolveNames(old(categories), input.categories, actor.id);
        && categories == resolved.1
        && p == UpdatedRecord(old(posts)[id], input, resolved.0, now, slugify)
      ensures forall c :: c in p.categories ==> c in categories.rows
    {
      var post := new PostDocument.Load(posts[id]);
      var ids := FindOrCreateCategories(input.categories, actor.id);
      ApplyUpdate(post, input, ids, now, slugify);
      p := post.Record();
    }

    /** deletePost: 404 for an unknown id, 403 for an actor who is neither the
        author nor an admin, otherwise exactly that post is removed. */
    method DeletePost(id: Id, actor: Actor) returns (reply: Reply<Post>)
      requires Valid()
      modifies this`posts
      ensures Valid()
      ensures id !in old(posts) ==>
        reply == Reply(STATUS_NOT_FOUND, MSG_NOT_FOUND, None) && posts == old(posts)
      ensures id in old(posts) && !MayModify(actor, old(posts)[id].author) ==>
        reply == Reply(STATUS_FORBIDDEN, MSG_DELETE_FORBIDDEN, None) && posts == old(posts)
      ensures id in old(posts) && MayModify(actor, old(posts)[id].author) ==>
        reply == Reply(STATUS_OK, MSG_DELETED, None) && posts == old(posts) - {id}
    {
      if id !in posts {
        return Reply(STATUS_NOT_FOUND, MSG_NOT_FOUND, None);
      }
      if posts[id].author != actor.id && actor.role != AdminRole {
        return Reply(STATUS_FORBIDDEN, MSG_DELETE_FORBIDDEN, None);
      }
      posts := posts - {id};
      reply := Reply(STATUS_OK, MSG_DELETED, None);
    }

    /** createCategory: a missing or empty name is 400; an existing name returns
        its record with 200 and changes nothing; a new name adds exactly one
        record, created by the acting user, with 201. */
    method CreateCategory(name: Option<string>, actor: Actor) returns (reply: Reply<Category>)
      requires Valid()
      modifies this`categories
      ensures Valid()
      ensures !Truthy(name) ==>
        reply == Reply(STATUS_BAD_REQUEST, MSG_NAME_REQUIRED, None) && categories == old(categories)
      ensures Truthy(name) ==>
        var (id, table) := FindOrCreate(old(categories), name.value, actor.id);
        && categories == table
        && (id in old(categories).rows ==>
              reply == Reply(STATUS_OK, MSG_ALREADY_EXISTS, Some(old(categories).rows[id])))
        && (id !in old(categories).rows ==>
              reply == Reply(STATUS_CREATED, MSG_CATEGORY_CREATED, Some(Category(id, name.value, actor.id))))
    {
      if !Truthy(name) {
        return Reply(STATUS_BAD_REQUEST, MSG_NAME_REQUIRED, None);
      }
      FindOrCreateKeepsNamesUnique(categories, name.value, actor.id);
      var existing := FindByName(categories, name.value);
      if existing.Some? {
        return Reply(STATUS_OK, MSG_ALREADY_EXISTS, Some(categories.rows[existing.value]));
      }
      var id := categories.nextId;
      var category := Category(id, name.value, actor.id);
      categories := CategoryTable(categories.rows[id := category], id + 1);
      reply := Reply(STATUS_CREATED, MSG_CATEGORY_CREATED, Some(category));
    }

    /** getAllCategories: every category, by name ascending. */
    function GetAllCategories(): (r: seq<Category>)
      reads this
      requires Valid()
      ensures multiset(r) == multiset(Rows(categories.rows, categories.nextId))
      ensures forall c :: c in r <==> c in categories.rows.Values
      ensures SortedBy(r, ByName)
    {
      ListCategories(categories)
    }
  }
}
