/** PostMapper: conversions between posts and their wire records, and the
    in-place update helper the post service applies to a loaded post. */
module PostMapper {
  import opened Common
  import opened Entities

  /** The objects toPostResponse looks at: the post and its author. */
  function PostFootprint(entity: BlogEntity?): set<object>
    reads entity
  {
    if entity == null then {}
    else if entity.author == null then {entity}
    else {entity, entity.author}
  }

  /** toPostResponse: null for a null post; otherwise the post's own fields,
      with the author's id and username, or nulls when it has no author. */
  function ToPostResponse(entity: BlogEntity?): (r: Option<PostResponse>)
    reads PostFootprint(entity)
    ensures entity == null <==> r.None?
    ensures entity != null ==> (
      r.value.id == entity.id && r.value.title == entity.title && r.value.slug == entity.slug
      && r.value.content == entity.content
      && r.value.createdAt == entity.createdAt && r.value.updatedAt == entity.updatedAt)
    ensures entity != null && entity.author == null ==>
      (r.value.authorId.None? && r.value.authorUsername.None?)
    ensures entity != null && entity.author != null ==>
      (r.value.authorId == entity.author.id && r.value.authorUsername == entity.author.username)
  {
    if entity == null then None
    else
      var author := entity.author;
      Some(PostResponse(
        entity.id, entity.title, entity.slug, entity.content,
        if author != null then author.id else None,
        if author != null then author.username else None,
        entity.createdAt, entity.updatedAt))
  }

  /** The objects of a whole list of posts. */
  function ListFootprint(entities: seq<BlogEntity?>): set<object>
    reads set i | 0 <= i < |entities| && entities[i] != null :: entities[i]
  {
    if entities == [] then {}
    else PostFootprint(entities[0]) + ListFootprint(entities[1..])
  }

  function MapToPostResponses(entities: seq<BlogEntity?>): (r: seq<Option<PostResponse>>)
    reads ListFootprint(entities)
    reads set i | 0 <= i < |entities| && entities[i] != null :: entities[i]
    ensures |r| == |entities|
    ensures forall i :: 0 <= i < |r| ==> r[i] == ToPostResponse(entities[i])
  {
    if entities == [] then []
    else [ToPostResponse(entities[0])] + MapToPostResponses(entities[1..])
  }

  /** toPostResponses: the empty list for null, otherwise one response per
      post, in the same order. */
  function ToPostResponses(entities: Option<seq<BlogEntity?>>): (r: seq<Option<PostResponse>>)
    reads if entities.Some? then ListFootprint(entities.value) else {}
    reads if entities.Some? then set i | 0 <= i < |entities.value| && entities.value[i] != null :: entities.value[i] else {}
    ensures entities.None? ==> r == []
    ensures entities.Some? ==> |r| == |entities.value|
    ensures entities.Some? ==> forall i :: 0 <= i < |r| ==> r[i] == ToPostResponse(entities.value[i])
  {
    if entities.None? then [] else MapToPostResponses(entities.value)
  }

  /** toBlogEntity: null when the request or the author is null; otherwise a
      new post without id or image, carrying the request's title and content
      and the given slug, author and timestamps. */
  method ToBlogEntity(request: Option<PostCreateRequest>, author: UserEntity?, slug: string,
                      createdAt: Instant, updatedAt: Instant) returns (e: BlogEntity?)
    ensures request.None? || author == null <==> e == null
    ensures e != null ==> (
      fresh(e) && e.id.None? && e.title == request.value.title && e.content == request.value.content
      && e.slug == slug && e.author == author
      && e.createdAt == createdAt && e.updatedAt == updatedAt && e.imagePath.None?)
  {
    if request.None? || author == null {
      return null;
    }
    e := new BlogEntity(None, request.value.title, slug, request.value.content, author,
                        createdAt, updatedAt, None);
  }

  /** applyUpdate: overwrites title and content (null included) and the update
      time; id, slug, author, creation time and image stay as they were. Nothing
      happens when either argument is null. */
  method ApplyUpdate(request: Option<PostUpdateRequest>, entity: BlogEntity?, updatedAt: Instant)
    modifies if entity != null then {entity} else {}
    ensures request.None? || entity == null ==>
      entity == null || (
        entity.title == old(entity.title) && entity.content == old(entity.content)
        && entity.updatedAt == old(entity.updatedAt))
    ensures request.Some? && entity != null ==> (
      entity.title == request.value.title && entity.content == request.value.content
      && entity.updatedAt == updatedAt)
    ensures entity != null ==> (
      entity.id == old(entity.id) && entity.slug == old(entity.slug)
      && entity.author == old(entity.author) && entity.createdAt == old(entity.createdAt)
      && entity.imagePath == old(entity.imagePath))
  {
    if request.None? || entity == null {
      return;
    }
    entity.title := request.value.title;
    entity.content := request.value.content;
    entity.updatedAt := updatedAt;
  }
}
