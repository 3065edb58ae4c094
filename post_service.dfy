/** BlogRepository and PostService: the blog table with its unique slug
    index, the probing that picks a free slug, and the post lifecycle (create,
    read through the "posts" cache, update, delete, image lookup). */
module Posts {
  import opened Common
  import opened Exceptions
  import opened Entities
  import opened SlugUtil
  import opened PostMapper
  import opened FileStorage
  import opened Users

  const POST_NOT_FOUND := "Post not found"

  function PostNotFoundMessage(id: Id): string
  {
    "Post not found with id " + IdToString(id)
  }

  function AuthorNotFoundMessage(id: Id): string
  {
    "Author not found with id " + IdToString(id)
  }

  // ---------------------------------------------------------------------------
  // Slugs

  /** The slugs stored in the table. */
  function Slugs(rows: map<Id, PostRow>): set<string>
  {
    set id | id in rows :: rows[id].slug
  }

  /** The slugs of every post but `excludeId` (what findBySlugAndIdNot can match). */
  function SlugsExcept(rows: map<Id, PostRow>, excludeId: Id): set<string>
  {
    set id | id in rows && id != excludeId :: rows[id].slug
  }

  /** The unique index on the slug column. */
  predicate DistinctSlugs(rows: map<Id, PostRow>)
  {
    forall a, b :: a in rows && b in rows && a != b ==> rows[a].slug != rows[b].slug
  }

  /** The k-th slug tried for `base`: `base` itself, then `base-1`, `base-2`, ... */
  function Candidate(base: string, k: nat): string
  {
    if k == 0 then base else base + "-" + NatToString(k)
  }

  /** Distinct probe numbers give distinct candidates. */
  lemma {:induction false} CandidateInjective(base: string, j: nat, k: nat)
    requires Candidate(base, j) == Candidate(base, k)
    ensures j == k
  {
    if j == 0 || k == 0 {
      assert |Candidate(base, j)| == |Candidate(base, k)|;
      assert j == 0 && k == 0;
    } else {
      var prefix := base + "-";
      var cj, ck := Candidate(base, j), Candidate(base, k);
      assert cj == prefix + NatToString(j) && ck == prefix + NatToString(k);
      assert cj[|prefix|..] == NatToString(j);
      assert ck[|prefix|..] == NatToString(k);
      NatToStringInjective(j, k);
    }
  }

  /** No earlier probe repeats the n-th candidate. */
  lemma CandidateNotEarlier(base: string, n: nat)
    ensures forall j :: 0 <= j < n ==> Candidate(base, j) != Candidate(base, n)
  {
    forall j | 0 <= j < n
      ensures Candidate(base, j) != Candidate(base, n)
    {
      if Candidate(base, j) == Candidate(base, n) {
        CandidateInjective(base, j, n);
      }
    }
  }

  /** `slug` is the first candidate for `base` that is not taken. */
  ghost predicate IsFirstFree(base: string, taken: set<string>, slug: string)
  {
    exists k: nat :: slug == Candidate(base, k) && slug !in taken
                     && forall j :: 0 <= j < k ==> Candidate(base, j) in taken
  }

  /** The probing result is determined by the base and the taken slugs. */
  lemma FirstFreeUnique(base: string, taken: set<string>, s1: string, s2: string)
    requires IsFirstFree(base, taken, s1) && IsFirstFree(base, taken, s2)
    ensures s1 == s2
  {
    var k1: nat :| s1 == Candidate(base, k1) && s1 !in taken
                   && forall j :: 0 <= j < k1 ==> Candidate(base, j) in taken;
    var k2: nat :| s2 == Candidate(base, k2) && s2 !in taken
                   && forall j :: 0 <= j < k2 ==> Candidate(base, j) in taken;
    // a smaller probe number would be a taken slug that is also free
    assert k1 == k2;
  }

  lemma FirstFreeIsFree(base: string, taken: set<string>, slug: string)
    requires IsFirstFree(base, taken, slug)
    ensures slug !in taken
  {
  }

  /** A free base slug is used as it is. */
  lemma FreeBaseIsKept(base: string, taken: set<string>)
    requires base !in taken
    ensures IsFirstFree(base, taken, base)
  {
    assert base == Candidate(base, 0);
  }

  /** A taken base with `base-1` free gives `base-1` ("hello" taken gives "hello-1"). */
  lemma TakenBaseGetsFirstSuffix(base: string, taken: set<string>)
    requires base in taken && base + "-1" !in taken
    ensures IsFirstFree(base, taken, base + "-1")
  {
    assert NatToString(1) == "1";
    assert Candidate(base, 1) == base + "-1";
    assert forall j :: 0 <= j < 1 ==> Candidate(base, j) == base;
  }

  /** The post being updated never blocks its own slug: re-deriving the slug
      from an unchanged title keeps it. */
  lemma OwnSlugIsKept(rows: map<Id, PostRow>, id: Id, slug: string)
    requires DistinctSlugs(rows) && id in rows
    ensures rows[id].slug !in SlugsExcept(rows, id)
    ensures IsFirstFree(rows[id].slug, SlugsExcept(rows, id), slug) <==> slug == rows[id].slug
  {
    var own := rows[id].slug;
    forall other | other in rows && other != id
      ensures rows[other].slug != own
    {
    }
    FreeBaseIsKept(own, SlugsExcept(rows, id));
    if IsFirstFree(own, SlugsExcept(rows, id), slug) {
      FirstFreeUnique(own, SlugsExcept(rows, id), slug, own);
    }
  }

  // ---------------------------------------------------------------------------
  // Stored state

  /** Every post's author is a stored user (the non-null user_id join column). */
  predicate AuthorsExist(posts: map<Id, PostRow>, users: map<Id, UserRow>)
  {
    forall id :: id in posts ==> posts[id].authorId in users
  }

  /** An image path the path guard accepts. */
  predicate SafePath(path: Option<string>)
  {
    path.Some? ==> !ContainsDotDot(path.value)
  }

  /** Stored image paths are the ones savePostImage generated: none holds "..". */
  predicate ImagePathsSafe(posts: map<Id, PostRow>)
  {
    forall id :: id in posts ==> SafePath(posts[id].imagePath)
  }

  /** What toPostResponse makes of a stored post whose author is named `authorName`. */
  function PostResponseOfRow(id: Id, row: PostRow, authorName: string): PostResponse
  {
    PostResponse(Some(id), Some(row.title), row.slug, Some(row.content), Some(row.authorId),
                 Some(authorName), row.createdAt, row.updatedAt)
  }

  /** Every cached post is the stored post, except for the author's name,
      which is copied when the entry is made and not refreshed afterwards. */
  predicate PostsCoherent(posts: map<Id, PostRow>, cache: map<Id, PostResponse>)
  {
    forall id :: id in cache ==>
      id in posts && cache[id].authorUsername.Some?
      && cache[id] == PostResponseOfRow(id, posts[id], cache[id].authorUsername.value)
  }

  /** A loaded post carries the stored row, and its author the author's row. */
  predicate LoadedPost(e: BlogEntity, id: Id, row: PostRow, authorRow: UserRow)
    reads e, e.author
  {
    e.id == Some(id) && e.title == Some(row.title) && e.slug == row.slug
    && e.content == Some(row.content) && e.createdAt == row.createdAt
    && e.updatedAt == row.updatedAt && e.imagePath == row.imagePath
    && e.author != null && Holds(e.author, row.authorId, authorRow)
  }

  /** The row a save writes for a post whose NOT NULL columns are set. */
  function PostRowOf(e: BlogEntity): PostRow
    reads e, e.author
    requires e.title.Some? && e.content.Some? && e.author != null && e.author.id.Some?
  {
    PostRow(e.title.value, e.slug, e.content.value, e.author.id.value, e.createdAt, e.updatedAt, e.imagePath)
  }

  /** The blog table with its IDENTITY counter. */
  class BlogRepository {
    var rows: map<Id, PostRow>
    var nextId: Id

    constructor ()
      ensures rows == map[] && nextId == 1 && Valid()
    {
      rows := map[];
      nextId := 1;
    }

    /** Identifiers are positive and below the counter; the slug index holds. */
    predicate Valid()
      reads this
    {
      0 < nextId && (forall id :: id in rows ==> 0 < id < nextId) && DistinctSlugs(rows)
    }

    /** findBySlug. */
    method FindBySlug(slug: string) returns (r: Option<Id>)
      ensures r.Some? <==> slug in Slugs(rows)
      ensures r.Some? ==> r.value in rows && rows[r.value].slug == slug
    {
      if exists id :: id in rows && rows[id].slug == slug {
        var id :| id in rows && rows[id].slug == slug;
        return Some(id);
      }
      return None;
    }

    /** findBySlugAndIdNot. */
    method FindBySlugAndIdNot(slug: string, excludeId: Id) returns (r: Option<Id>)
      ensures r.Some? <==> slug in SlugsExcept(rows, excludeId)
      ensures r.Some? ==> r.value in rows && r.value != excludeId && rows[r.value].slug == slug
    {
      if exists id :: id in rows && id != excludeId && rows[id].slug == slug {
        var id :| id in rows && id != excludeId && rows[id].slug == slug;
        return Some(id);
      }
      return None;
    }

    /** save: refuses a post with a null title or content (NOT NULL columns);
        inserts a post without id under the next identity value and sets its
        id; overwrites the row of a post with an id. */
    method Save(e: BlogEntity) returns (r: Result<Id>)
      requires e.author != null && e.author.id.Some?
      modifies this, e
      ensures e.title == old(e.title) && e.content == old(e.content) && e.slug == old(e.slug)
      ensures e.author == old(e.author) && e.createdAt == old(e.createdAt)
      ensures e.updatedAt == old(e.updatedAt) && e.imagePath == old(e.imagePath)
      ensures e.title.None? || e.content.None? ==>
        r == Err(NotNullViolation) && rows == old(rows) && nextId == old(nextId) && e.id == old(e.id)
      ensures e.title.Some? && e.content.Some? && old(e.id).None? ==>
        r == Ok(old(nextId)) && e.id == Some(old(nextId)) && nextId == old(nextId) + 1
        && rows == old(rows)[old(nextId) := PostRowOf(e)]
      ensures e.title.Some? && e.content.Some? && old(e.id).Some? ==>
        r == Ok(old(e.id).value) && e.id == old(e.id) && nextId == old(nextId)
        && rows == old(rows)[old(e.id).value := PostRowOf(e)]
    {
      if e.title.None? || e.content.None? {
        return Err(NotNullViolation);
      }
      var id: Id;
      if e.id.None? {
        id := nextId;
        nextId := nextId + 1;
        e.id := Some(id);
      } else {
        id := e.id.value;
      }
      rows := rows[id := PostRowOf(e)];
      return Ok(id);
    }

    /** delete. */
    method Delete(id: Id)
      modifies this
      ensures rows == old(rows) - {id} && nextId == old(nextId)
    {
      rows := rows - {id};
    }
  }

  // ---------------------------------------------------------------------------
  // The service

  /** A non-empty upload was attached (`image != null && !image.isEmpty()`). */
  predicate HasImage(image: Option<Upload>)
  {
    image.Some? && !IsEmptyUpload(image.value)
  }

  /** The upload directory after deleteByRelativePath(path). */
  function AfterDelete(files: set<string>, path: Option<string>): set<string>
  {
    if IsNullOrBlank(path) then files else files - {path.value}
  }

  /** The row createPost stores. */
  function CreatedRow(request: PostCreateRequest, authorId: Id, slug: string, createdAt: Instant,
                      updatedAt: Instant, imagePath: Option<string>): PostRow
    requires request.title.Some? && request.content.Some?
  {
    PostRow(request.title.value, slug, request.content.value, authorId, createdAt, updatedAt, imagePath)
  }

  /** The row updatePost stores in place of `row`. */
  function UpdatedRow(row: PostRow, request: PostUpdateRequest, slug: string, now: Instant,
                      imagePath: Option<string>): PostRow
    requires request.title.Some? && request.content.Some?
  {
    row.(title := request.title.value, content := request.content.value, slug := slug,
         updatedAt := now, imagePath := imagePath)
  }

  /** The path of an accepted upload for post `id`. */
  function UploadPath(id: Id, image: Upload, uuid: string): string
    requires ValidateImage(image).None?
  {
    RelativePath(id, uuid, Extension(image.contentType.value))
  }

  /** What the post service keeps true of the stored posts and its cache. */
  predicate StoreInvariant(rows: map<Id, PostRow>, users: map<Id, UserRow>, cache: map<Id, PostResponse>)
  {
    DistinctSlugs(rows) && AuthorsExist(rows, users) && ImagePathsSafe(rows) && PostsCoherent(rows, cache)
  }

  /** Inserting a post under a fresh id, with a free slug, an existing author
      and a safe image path, keeps the invariant. */
  lemma InsertKeepsStoreInvariant(rows: map<Id, PostRow>, users: map<Id, UserRow>,
                                  cache: map<Id, PostResponse>, id: Id, row: PostRow)
    requires StoreInvariant(rows, users, cache) && id !in rows
    requires row.slug !in Slugs(rows) && row.authorId in users && SafePath(row.imagePath)
    ensures StoreInvariant(rows[id := row], users, cache)
  {
    forall a | a in rows ensures rows[a].slug != row.slug
    {
      assert rows[a].slug in Slugs(rows);
    }
  }

  /** Rewriting a post with a slug no other post holds, and evicting it,
      keeps the invariant. */
  lemma ReplaceKeepsStoreInvariant(rows: map<Id, PostRow>, users: map<Id, UserRow>,
                                   cache: map<Id, PostResponse>, id: Id, row: PostRow)
    requires StoreInvariant(rows, users, cache) && id in rows
    requires row.slug !in SlugsExcept(rows, id) && row.authorId in users && SafePath(row.imagePath)
    ensures StoreInvariant(rows[id := row], users, cache - {id})
  {
    forall a | a in rows && a != id ensures rows[a].slug != row.slug
    {
      assert rows[a].slug in SlugsExcept(rows, id);
    }
  }

  /** Removing a post and evicting it keeps the invariant. */
  lemma RemoveKeepsStoreInvariant(rows: map<Id, PostRow>, users: map<Id, UserRow>,
                                  cache: map<Id, PostResponse>, id: Id)
    requires StoreInvariant(rows, users, cache)
    ensures StoreInvariant(rows - {id}, users, cache - {id})
  {
  }

  class PostService {
    const repo: BlogRepository
    const users: UserService
    const storage: FileStorageService
    var postsCache: map<Id, PostResponse>

    constructor (repo: BlogRepository, users: UserService, storage: FileStorageService)
      requires repo.Valid() && AuthorsExist(repo.rows, users.repo.rows) && ImagePathsSafe(repo.rows)
      ensures this.repo == repo && this.users == users && this.storage == storage
      ensures postsCache == map[] && Valid()
    {
      this.repo := repo;
      this.users := users;
      this.storage := storage;
      postsCache := map[];
    }

    predicate Valid()
      reads this, repo, users.repo
    {
      repo.Valid() && StoreInvariant(repo.rows, users.repo.rows, postsCache)
    }

    /** findPostOrThrow: the loaded post with its author, or "Post not found with id N". */
    method FindPostOrThrow(id: Id) returns (r: Result<BlogEntity>)
      requires Valid()
      ensures r.Err? <==> id !in repo.rows
      ensures r.Err? ==> r.error == NotFound(PostNotFoundMessage(id))
      ensures r.Ok? ==> fresh(r.value) && fresh(r.value.author)
                        && LoadedPost(r.value, id, repo.rows[id], users.repo.rows[repo.rows[id].authorId])
    {
      if id !in repo.rows {
        return Err(NotFound(PostNotFoundMessage(id)));
      }
      var row := repo.rows[id];
      var author := users.repo.FindById(row.authorId);
      var post := new BlogEntity(Some(id), Some(row.title), row.slug, Some(row.content), author,
                                 row.createdAt, row.updatedAt, row.imagePath);
      return Ok(post);
    }

    /** ensureUniqueSlug: probes `base`, `base-1`, `base-2`, ... until one is
        not stored. Terminates because every probe that fails is a distinct
        stored slug, and there are finitely many. */
    method EnsureUniqueSlug(base: string) returns (slug: string)
      ensures IsFirstFree(base, Slugs(repo.rows), slug)
    {
      ghost var taken := Slugs(repo.rows);
      ghost var tried: set<string> := {};
      slug := base;
      var counter: nat := 1;
      var found := repo.FindBySlug(slug);
      while found.Some?
        invariant slug == Candidate(base, counter - 1)
        invariant found.Some? <==> slug in taken
        invariant forall j :: 0 <= j < counter - 1 ==> Candidate(base, j) in taken
        invariant tried == set j | 0 <= j < counter - 1 :: Candidate(base, j)
        invariant tried <= taken
        decreases taken - tried
      {
        CandidateNotEarlier(base, counter - 1);
        tried := tried + {slug};
        slug := base + "-" + NatToString(counter);
        counter := counter + 1;
        found := repo.FindBySlug(slug);
      }
      assert slug == Candidate(base, counter - 1);
    }

    /** ensureUniqueSlugExcluding: the same probing, where the post `excludeId`
        does not count as holding its slug. */
    method EnsureUniqueSlugExcluding(base: string, excludeId: Id) returns (slug: string)
      ensures IsFirstFree(base, SlugsExcept(repo.rows, excludeId), slug)
    {
      ghost var taken := SlugsExcept(repo.rows, excludeId);
      ghost var tried: set<string> := {};
      slug := base;
      var counter: nat := 1;
      var found := repo.FindBySlugAndIdNot(slug, excludeId);
      while found.Some?
        invariant slug == Candidate(base, counter - 1)
        invariant found.Some? <==> slug in taken
        invariant forall j :: 0 <= j < counter - 1 ==> Candidate(base, j) in taken
        invariant tried == set j | 0 <= j < counter - 1 :: Candidate(base, j)
        invariant tried <= taken
        decreases taken - tried
      {
        CandidateNotEarlier(base, counter - 1);
        tried := tried + {slug};
        slug := base + "-" + NatToString(counter);
        counter := counter + 1;
        found := repo.FindBySlugAndIdNot(slug, excludeId);
      }
      assert slug == Candidate(base, counter - 1);
    }

    /** getPost: served from the "posts" cache when present, otherwise loaded,
        mapped and cached. A hit may carry an author name that has changed
        since; every other field is the stored post's. */
    method GetPost(id: Id) returns (r: Result<PostResponse>)
      requires Valid()
      modifies this
      ensures Valid()
      ensures id !in repo.rows ==> r == Err(NotFound(PostNotFoundMessage(id))) && postsCache == old(postsCache)
      ensures id in old(postsCache) ==> r == Ok(old(postsCache)[id]) && postsCache == old(postsCache)
      ensures id in repo.rows && id !in old(postsCache) ==>
        r == Ok(PostResponseOfRow(id, repo.rows[id], users.repo.rows[repo.rows[id].authorId].username))
        && postsCache == old(postsCache)[id := r.value]
      ensures id in repo.rows ==>
        r.Ok? && r.value.authorUsername.Some?
        && r.value == PostResponseOfRow(id, repo.rows[id], r.value.authorUsername.value)
    {
      if id in postsCache {
        return Ok(postsCache[id]);
      }
      var found := FindPostOrThrow(id);
      if found.Err? {
        return Err(found.error);
      }
      var response := ToPostResponse(found.value).value;
      postsCache := postsCache[id := response];
      return Ok(response);
    }

    /** The image step of createPost for the inserted post: the upload is
        validated and stored under the post's id and the post saved again
        with its path; a refused upload rolls the table back to `before`. */
    method AttachImage(entity: BlogEntity, image: Upload, uuid: string, before: map<Id, PostRow>)
      returns (r: Result<()>)
      requires IsUuid(uuid) && !IsEmptyUpload(image)
      requires entity.id.Some? && entity.title.Some? && entity.content.Some?
      requires entity.author != null && entity.author.id.Some?
      modifies repo, storage, entity
      ensures repo.nextId == old(repo.nextId)
      ensures entity.id == old(entity.id) && entity.title == old(entity.title) && entity.slug == old(entity.slug)
      ensures entity.content == old(entity.content) && entity.author == old(entity.author)
      ensures entity.createdAt == old(entity.createdAt) && entity.updatedAt == old(entity.updatedAt)
      ensures ValidateImage(image).Some? ==>
        r == Err(ValidateImage(image).value) && repo.rows == before && storage.files == old(storage.files)
      ensures ValidateImage(image).None? ==>
        var path := UploadPath(entity.id.value, image, uuid);
        r == Ok(()) && entity.imagePath == Some(path) && SafePath(entity.imagePath)
        && storage.files == old(storage.files) + {path}
        && repo.rows == old(repo.rows)[entity.id.value := PostRowOf(entity)]
    {
      var stored := storage.SavePostImage(entity.id.value, Some(image), uuid);
      if stored.Err? {
        // the transaction rolls back the insert
        repo.rows := before;
        return Err(stored.error);
      }
      entity.imagePath := stored.value;
      var saved := repo.Save(entity);
      return Ok(());
    }

    /** createPost. The author must exist; the slug is the first free
        candidate for the title's slug; a null title or content is refused by
        the insert; an attached image is validated and stored under the new
        post's id, and a refused image rolls the insert back. The two clock
        readings (creation and update time) and the image's UUID are inputs. */
    method CreatePost(authorId: Id, request: PostCreateRequest, image: Option<Upload>, createdAt: Instant,
                      updatedAt: Instant, uuid: string) returns (r: Result<PostResponse>)
      requires Valid() && IsUuid(uuid)
      modifies repo, storage
      ensures Valid()
      ensures postsCache == old(postsCache)
      ensures authorId !in users.repo.rows ==>
        r == Err(NotFound(AuthorNotFoundMessage(authorId)))
        && repo.rows == old(repo.rows) && repo.nextId == old(repo.nextId) && storage.files == old(storage.files)
      ensures authorId in users.repo.rows && (request.title.None? || request.content.None?) ==>
        r == Err(NotNullViolation)
        && repo.rows == old(repo.rows) && repo.nextId == old(repo.nextId) && storage.files == old(storage.files)
      ensures authorId in users.repo.rows && request.title.Some? && request.content.Some? ==>
        var id := old(repo.nextId);
        repo.nextId == id + 1 && id !in old(repo.rows)
        && (HasImage(image) && ValidateImage(image.value).Some? ==>
              r == Err(ValidateImage(image.value).value)
              && repo.rows == old(repo.rows) && storage.files == old(storage.files))
        && (!HasImage(image) || ValidateImage(image.value).None? ==>
              var imagePath := if HasImage(image) then Some(UploadPath(id, image.value, uuid)) else None;
              id in repo.rows
              && IsFirstFree(ToSlug(request.title), Slugs(old(repo.rows)), repo.rows[id].slug)
              && repo.rows == old(repo.rows)[id := CreatedRow(request, authorId, repo.rows[id].slug, createdAt, updatedAt, imagePath)]
              && storage.files == (if HasImage(image) then old(storage.files) + {imagePath.value} else old(storage.files))
              && r == Ok(PostResponseOfRow(id, repo.rows[id], users.repo.rows[authorId].username)))
    {
      var author := users.repo.FindById(authorId);
      if author == null {
        return Err(NotFound(AuthorNotFoundMessage(authorId)));
      }
      var baseSlug := ToSlug(request.title);
      var uniqueSlug := EnsureUniqueSlug(baseSlug);
      FirstFreeIsFree(baseSlug, Slugs(repo.rows), uniqueSlug);
      var entity := ToBlogEntity(Some(request), author, uniqueSlug, createdAt, updatedAt);
      r := InsertPost(entity, authorId, image, uuid);
    }

    /** The writing step of createPost for a new post whose slug is free and
        whose author is stored: the insert (a null title or content is
        refused), then the image, if one is attached. */
    method InsertPost(entity: BlogEntity, authorId: Id, image: Option<Upload>, uuid: string)
      returns (r: Result<PostResponse>)
      requires Valid() && IsUuid(uuid)
      requires entity.id.None? && entity.imagePath.None? && entity.slug !in Slugs(repo.rows)
      requires authorId in users.repo.rows && entity.author != null
      requires Holds(entity.author, authorId, users.repo.rows[authorId])
      modifies repo, storage, entity
      ensures Valid()
      ensures entity.title.None? || entity.content.None? ==>
        r == Err(NotNullViolation)
        && repo.rows == old(repo.rows) && repo.nextId == old(repo.nextId) && storage.files == old(storage.files)
      ensures entity.title.Some? && entity.content.Some? ==>
        var id := old(repo.nextId);
        repo.nextId == id + 1 && id !in old(repo.rows)
        && (HasImage(image) && ValidateImage(image.value).Some? ==>
              r == Err(ValidateImage(image.value).value)
              && repo.rows == old(repo.rows) && storage.files == old(storage.files))
        && (!HasImage(image) || ValidateImage(image.value).None? ==>
              var imagePath := if HasImage(image) then Some(UploadPath(id, image.value, uuid)) else None;
              repo.rows == old(repo.rows)[id := PostRow(entity.title.value, entity.slug, entity.content.value,
                                                        authorId, entity.createdAt, entity.updatedAt, imagePath)]
              && storage.files == (if HasImage(image) then old(storage.files) + {imagePath.value} else old(storage.files))
              && r == Ok(PostResponseOfRow(id, repo.rows[id], users.repo.rows[authorId].username)))
      ensures entity.title == old(entity.title) && entity.content == old(entity.content)
      ensures entity.slug == old(entity.slug) && entity.createdAt == old(entity.createdAt)
      ensures entity.updatedAt == old(entity.updatedAt)
    {
      var before := repo.rows;
      var saved := repo.Save(entity);
      if saved.Err? {
        return Err(saved.error);
      }
      var id := saved.value;

      if HasImage(image) {
        var attached := AttachImage(entity, image.value, uuid, before);
        if attached.Err? {
          return Err(attached.error);
        }
      }
      InsertKeepsStoreInvariant(before, users.repo.rows, postsCache, id, PostRowOf(entity));
      return Ok(ToPostResponse(entity).value);
    }

    /** The image step of updatePost: the old image file is deleted, then the
        upload is validated and stored and its path set on the post. Stored
        paths are safe, so the deletion itself never fails. */
    method ReplaceImage(post: BlogEntity, id: Id, image: Upload, uuid: string) returns (r: Result<()>)
      requires IsUuid(uuid) && !IsEmptyUpload(image) && SafePath(post.imagePath)
      modifies storage, post
      ensures post.id == old(post.id) && post.title == old(post.title) && post.slug == old(post.slug)
      ensures post.content == old(post.content) && post.author == old(post.author)
      ensures post.createdAt == old(post.createdAt) && post.updatedAt == old(post.updatedAt)
      ensures ValidateImage(image).Some? ==>
        r == Err(ValidateImage(image).value) && post.imagePath == old(post.imagePath)
        && storage.files == AfterDelete(old(storage.files), old(post.imagePath))
      ensures ValidateImage(image).None? ==>
        r == Ok(()) && post.imagePath == Some(UploadPath(id, image, uuid)) && SafePath(post.imagePath)
        && storage.files == AfterDelete(old(storage.files), old(post.imagePath)) + {UploadPath(id, image, uuid)}
    {
      var deleted := storage.DeleteByRelativePath(post.imagePath);
      var stored := storage.SavePostImage(id, Some(image), uuid);
      if stored.Err? {
        return Err(stored.error);
      }
      post.imagePath := stored.value;
      return Ok(());
    }

    /** The writing step of updatePost for the owner's post: title and content
        are overwritten, a non-blank title re-derives the slug, the row is
        saved (a null title or content is refused) and the cached post is
        evicted. The post carries its stored id, slug, creation time and
        author, and the image path to store. */
    method WriteUpdate(id: Id, post: BlogEntity, request: PostUpdateRequest, now: Instant)
      returns (r: Result<PostResponse>)
      requires Valid() && id in repo.rows
      requires post.id == Some(id) && post.slug == repo.rows[id].slug
      requires post.createdAt == repo.rows[id].createdAt && SafePath(post.imagePath)
      requires post.author != null && post.author.id == Some(repo.rows[id].authorId)
      requires post.author.username == Some(users.repo.rows[repo.rows[id].authorId].username)
      modifies this, repo, post
      ensures Valid() && repo.nextId == old(repo.nextId)
      ensures request.title.None? || request.content.None? ==>
        r == Err(NotNullViolation) && repo.rows == old(repo.rows) && postsCache == old(postsCache)
      ensures request.title.Some? && request.content.Some? ==>
        var row := old(repo.rows)[id];
        id in repo.rows
        && repo.rows == old(repo.rows)[id := UpdatedRow(row, request, repo.rows[id].slug, now, old(post.imagePath))]
        && (IsBlank(request.title.value) ==> repo.rows[id].slug == row.slug)
        && (!IsBlank(request.title.value) ==>
              IsFirstFree(ToSlug(request.title), SlugsExcept(old(repo.rows), id), repo.rows[id].slug))
        && postsCache == old(postsCache) - {id}
        && r == Ok(PostResponseOfRow(id, repo.rows[id], users.repo.rows[row.authorId].username))
    {
      ApplyUpdate(Some(request), post, now);

      if request.title.Some? && !IsBlank(request.title.value) {
        post.slug := EnsureUniqueSlugExcluding(ToSlug(post.title), id);
        FirstFreeIsFree(ToSlug(post.title), SlugsExcept(repo.rows, id), post.slug);
      } else {
        OwnSlugIsKept(repo.rows, id, post.slug);
      }

      ghost var before := repo.rows;
      var saved := repo.Save(post);
      if saved.Err? {
        return Err(saved.error);
      }
      ReplaceKeepsStoreInvariant(before, users.repo.rows, postsCache, id, PostRowOf(post));
      postsCache := postsCache - {id};
      return Ok(ToPostResponse(post).value);
    }

    /** updatePost. The post must exist and belong to the caller (a foreign
        post reads as "Post not found"). An attached image first deletes the
        old image file and is then validated and stored; title and content
        are overwritten; a non-blank title re-derives the slug, ignoring the
        post's own; a null title or content is refused when the change is
        written. Only a successful update evicts the cached post; file
        changes are not undone by a failure. */
    method UpdatePost(id: Id, authorId: Id, request: PostUpdateRequest, image: Option<Upload>,
                      now: Instant, uuid: string) returns (r: Result<PostResponse>)
      requires Valid() && IsUuid(uuid)
      modifies this, repo, storage
      ensures Valid()
      ensures repo.nextId == old(repo.nextId)
      ensures id !in old(repo.rows) ==>
        r == Err(NotFound(PostNotFoundMessage(id)))
        && repo.rows == old(repo.rows) && postsCache == old(postsCache) && storage.files == old(storage.files)
      ensures id in old(repo.rows) && old(repo.rows)[id].authorId != authorId ==>
        r == Err(NotFound(POST_NOT_FOUND))
        && repo.rows == old(repo.rows) && postsCache == old(postsCache) && storage.files == old(storage.files)
      ensures id in old(repo.rows) && old(repo.rows)[id].authorId == authorId
              && HasImage(image) && ValidateImage(image.value).Some? ==>
        r == Err(ValidateImage(image.value).value)
        && repo.rows == old(repo.rows) && postsCache == old(postsCache)
        && storage.files == AfterDelete(old(storage.files), old(repo.rows)[id].imagePath)
      ensures id in old(repo.rows) && old(repo.rows)[id].authorId == authorId
              && (!HasImage(image) || ValidateImage(image.value).None?) ==>
        var row := old(repo.rows)[id];
        var imagePath := if HasImage(image) then Some(UploadPath(id, image.value, uuid)) else row.imagePath;
        storage.files == (if HasImage(image) then AfterDelete(old(storage.files), row.imagePath) + {imagePath.value}
                          else old(storage.files))
        && ((request.title.None? || request.content.None?) ==>
              r == Err(NotNullViolation) && repo.rows == old(repo.rows) && postsCache == old(postsCache))
        && (request.title.Some? && request.content.Some? ==>
              id in repo.rows
              && repo.rows == old(repo.rows)[id := UpdatedRow(row, request, repo.rows[id].slug, now, imagePath)]
              && (IsBlank(request.title.value) ==> repo.rows[id].slug == row.slug)
              && (!IsBlank(request.title.value) ==>
                    IsFirstFree(ToSlug(request.title), SlugsExcept(old(repo.rows), id), repo.rows[id].slug))
              && postsCache == old(postsCache) - {id}
              && r == Ok(PostResponseOfRow(id, repo.rows[id], users.repo.rows[authorId].username)))
    {
      var found := FindPostOrThrow(id);
      if found.Err? {
        return Err(found.error);
      }
      var post := found.value;
      if post.author.id != Some(authorId) {
        return Err(NotFound(POST_NOT_FOUND));
      }
      if HasImage(image) {
        var replaced := ReplaceImage(post, id, image.value, uuid);
        if replaced.Err? {
          return Err(replaced.error);
        }
      }
      r := WriteUpdate(id, post, request, now);
    }

    /** deletePost. The post must exist and belong to the caller; its image
        path, null included, goes to the file store; the row is removed and
        the cached post evicted. */
    method DeletePost(id: Id, authorId: Id) returns (r: Result<()>)
      requires Valid()
      modifies this, repo, storage
      ensures Valid()
      ensures repo.nextId == old(repo.nextId)
      ensures id !in old(repo.rows) ==>
        r == Err(NotFound(PostNotFoundMessage(id)))
        && repo.rows == old(repo.rows) && postsCache == old(postsCache) && storage.files == old(storage.files)
      ensures id in old(repo.rows) && old(repo.rows)[id].authorId != authorId ==>
        r == Err(NotFound(POST_NOT_FOUND))
        && repo.rows == old(repo.rows) && postsCache == old(postsCache) && storage.files == old(storage.files)
      ensures id in old(repo.rows) && old(repo.rows)[id].authorId == authorId ==>
        r == Ok(()) && repo.rows == old(repo.rows) - {id} && postsCache == old(postsCache) - {id}
        && storage.files == AfterDelete(old(storage.files), old(repo.rows)[id].imagePath)
    {
      var found := FindPostOrThrow(id);
      if found.Err? {
        return Err(found.error);
      }
      var post := found.value;
      if post.author.id != Some(authorId) {
        return Err(NotFound(POST_NOT_FOUND));
      }
      var deleted := storage.DeleteByRelativePath(post.imagePath);
      RemoveKeepsStoreInvariant(repo.rows, users.repo.rows, postsCache, id);
      repo.Delete(id);
      postsCache := postsCache - {id};
      return Ok(());
    }

    /** getPostImage: null when the post has no image path (or a blank one),
        without asking the file store; otherwise the stored file, if any.
        Stored paths never hold "..", so the path guard never refuses them. */
    method GetPostImage(id: Id) returns (r: Result<Option<string>>)
      requires Valid()
      ensures id !in repo.rows ==> r == Err(NotFound(PostNotFoundMessage(id)))
      ensures id in repo.rows && IsNullOrBlank(repo.rows[id].imagePath) ==> r == Ok(None)
      ensures id in repo.rows && !IsNullOrBlank(repo.rows[id].imagePath) ==>
        var path := repo.rows[id].imagePath.value;
        r == (if path in storage.files then Ok(Some(path)) else Ok(None))
    {
      var found := FindPostOrThrow(id);
      if found.Err? {
        return Err(found.error);
      }
      var imagePath := found.value.imagePath;
      if imagePath.None? || IsBlank(imagePath.value) {
        return Ok(None);
      }
      r := storage.GetResource(imagePath);
    }
  }
}
