/** The Post schema (models/Post.js): the record, the validators and defaults
    the schema declares, the unique index on the slug, the `trim` setter of
    the title and the pre-validate hook that fills in a missing slug. */
module PostModel {
  import opened Common
  import opened Text
  import opened Tables

  const MAX_TITLE_LENGTH: nat := 150
  const DEFAULT_LANGUAGE: string := "en"

  /** A stored post. A slug of "" stands for a slug that was never set (both are falsy). */
  datatype Post = Post(
    id: Id,
    title: string,
    slug: string,
    content: string,
    coverImage: string,
    videoUrl: string,
    tags: seq<string>,
    categories: seq<Id>,
    language: string,
    author: Id,
    createdAt: int,
    updatedAt: int)

  /** The fields of a create or update request body; None is a field the client left out.
      An omitted category list is the empty list: both skip the find-or-create loop. */
  datatype PostInput = PostInput(
    title: Option<string>,
    content: Option<string>,
    coverImage: Option<string>,
    videoUrl: Option<string>,
    tags: Option<seq<string>>,
    categories: seq<string>,
    language: Option<string>)

  /** The schema's validators, on a record whose title the setter has trimmed:
      a required title of at most 150 UTF-16 code units (`maxlength` measures
      String.prototype.length) and required content (a required string
      rejects ''). The author is required too; here it is an Id and always
      present. A valid title has between 1 and 150 characters. */
  predicate Valid(p: Post)
    ensures Valid(p) ==> 0 < |p.title| <= MAX_TITLE_LENGTH && p.content != ""
  {
    && IsTrimmed(p.title)
    && p.title != ""
    && JsLength(p.title) <= MAX_TITLE_LENGTH
    && p.content != ""
  }

  /** What `Post.create(fields)` builds before validation: the title passed
      through its `trim` setter, and the declared default for each field the
      request left out. Both timestamps are the creation time. */
  function NewRecord(id: Id, input: PostInput, slug: string, author: Id, categories: seq<Id>, now: int): (p: Post)
    ensures p.id == id && IsTrimmed(p.title) && |p.title| <= |input.title.GetOr("")|
    ensures p.createdAt == p.updatedAt == now
  {
    Post(
      id,
      Trim(input.title.GetOr("")),
      slug,
      input.content.GetOr(""),
      input.coverImage.GetOr(""),
      input.videoUrl.GetOr(""),
      input.tags.GetOr([]),
      categories,
      input.language.GetOr(DEFAULT_LANGUAGE),
      author,
      now,
      now)
  }

  /** Omitted optional fields take the schema's defaults; supplied ones are kept as given. */
  lemma NewRecordDefaults(id: Id, input: PostInput, slug: string, author: Id, categories: seq<Id>, now: int)
    ensures var p := NewRecord(id, input, slug, author, categories, now);
      && (input.coverImage.None? ==> p.coverImage == "")
      && (input.videoUrl.None? ==> p.videoUrl == "")
      && (input.tags.None? ==> p.tags == [])
      && (input.language.None? ==> p.language == "en")
      && (input.language.Some? ==> p.language == input.language.value)
      && (input.tags.Some? ==> p.tags == input.tags.value)
      && p.author == author && p.slug == slug && p.categories == categories
  {
  }

  /** A record passes the validators only if the title it was built from is
      non-empty and at most 150 UTF-16 code units long once trimmed. */
  lemma ValidTitleBounds(id: Id, input: PostInput, slug: string, author: Id, categories: seq<Id>, now: int)
    requires input.title.Some?
    requires Valid(NewRecord(id, input, slug, author, categories, now))
    ensures 0 < JsLength(Trim(input.title.value)) <= MAX_TITLE_LENGTH
  {
  }

  /** `slugify(title, { lower: true, strict: true })`: the slug the slugify
      library gives a title. The library is a parameter of the model; nothing
      is assumed about it. */
  function SlugFor(slugify: string -> string, title: string): string {
    slugify(title)
  }

  /** The pre-validate hook: when the title is set and the slug is not, the slug
      becomes the slug of the title; otherwise the record is left as it is. */
  function SlugHook(p: Post, slugify: string -> string): (q: Post)
    ensures q == p.(slug := q.slug)
    ensures p.slug != "" ==> q.slug == p.slug
    ensures p.title == "" ==> q.slug == p.slug
    ensures p.title != "" && p.slug == "" ==> q.slug == SlugFor(slugify, p.title)
  {
    if p.title != "" && p.slug == "" then p.(slug := SlugFor(slugify, p.title)) else p
  }

  /** Running the hook again changes nothing: it never overwrites a slug it set. */
  lemma SlugHookIdempotent(p: Post, slugify: string -> string)
    ensures SlugHook(SlugHook(p, slugify), slugify) == SlugHook(p, slugify)
  {
  }

  /** Some stored post already has this slug. */
  predicate SlugTaken(posts: map<Id, Post>, slug: string) {
    exists k | k in posts :: posts[k].slug == slug
  }

  /** `Post.findOne({ slug })` over a table whose keys are below `n`: the
      first post with that slug, None exactly when there is none. */
  function FindBySlug(posts: map<Id, Post>, n: nat, slug: string): (r: Option<Id>)
    requires forall k :: k in posts ==> k < n
    ensures r.Some? ==> r.value in posts && posts[r.value].slug == slug
    ensures r.None? <==> !SlugTaken(posts, slug)
  {
    FirstKey(posts, n, (p: Post) => p.slug == slug)
  }

  /** The unique index on the slug: no two stored posts share one. */
  ghost predicate SlugsUnique(posts: map<Id, Post>) {
    forall i, j :: i in posts && j in posts && posts[i].slug == posts[j].slug ==> i == j
  }

  /** Whether saving `p` beside the `others` succeeds: it passes the validators
      and the unique index. */
  predicate Saveable(others: map<Id, Post>, p: Post) {
    Valid(p) && !SlugTaken(others, p.slug)
  }

  /** Saving a record that passes the unique index keeps the slugs unique. */
  lemma SaveKeepsSlugsUnique(posts: map<Id, Post>, id: Id, p: Post)
    requires SlugsUnique(posts)
    requires Saveable(posts - {id}, p)
    ensures SlugsUnique(posts[id := p])
  {
    assert forall k :: k in posts && k != id ==> k in posts - {id};
  }

  /** A Mongoose document of the Post model: a record loaded or built in
      memory, whose fields the handlers assign before saving it. */
  class PostDocument {
    var id: Id
    var title: string
    var slug: string
    var content: string
    var coverImage: string
    var videoUrl: string
    var tags: seq<string>
    var categories: seq<Id>
    var language: string
    var author: Id
    var createdAt: int
    var updatedAt: int

    /** The record the document stands for. */
    function Record(): Post
      reads this
    {
      Post(id, title, slug, content, coverImage, videoUrl, tags, categories, language, author, createdAt, updatedAt)
    }

    /** `Post.findById`: the document of a stored record. */
    constructor Load(p: Post)
      ensures Record() == p
    {
      id, title, slug, content := p.id, p.title, p.slug, p.content;
      coverImage, videoUrl, tags, categories := p.coverImage, p.videoUrl, p.tags, p.categories;
      language, author, createdAt, updatedAt := p.language, p.author, p.createdAt, p.updatedAt;
    }

    /** `new Post(fields)`: setters and defaults applied to the given fields. */
    constructor Build(id: Id, input: PostInput, slug: string, author: Id, categories: seq<Id>, now: int)
      ensures Record() == NewRecord(id, input, slug, author, categories, now)
    {
      this.id, this.slug, this.author, this.categories := id, slug, author, categories;
      title := Trim(input.title.GetOr(""));
      content := input.content.GetOr("");
      coverImage := input.coverImage.GetOr("");
      videoUrl := input.videoUrl.GetOr("");
      tags := input.tags.GetOr([]);
      language := input.language.GetOr(DEFAULT_LANGUAGE);
      createdAt, updatedAt := now, now;
    }

    /** Assignment to `title`, which goes through the schema's `trim` setter. */
    method SetTitle(t: string)
      modifies this`title
      ensures Record() == old(Record()).(title := Trim(t))
    {
      title := Trim(t);
    }

    /** The pre-validate hook, run in place on the document. */
    method PreValidate(slugify: string -> string)
      modifies this`slug
      ensures Record() == SlugHook(old(Record()), slugify)
    {
      if title != "" && slug == "" {
        slug := SlugFor(slugify, title);
      }
    }

    /** The `timestamps` option on a save of a new or modified document: the
        update time becomes `now`. */
    method Touch(now: int)
      modifies this`updatedAt
      ensures Record() == old(Record()).(updatedAt := now)
    {
      updatedAt := now;
    }
  }
}
