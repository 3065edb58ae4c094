/** UserMapper: the two user views sent to clients (neither carries the
    password) and the in-place profile update helper. */
module UserMapper {
  import opened Common
  import opened Entities

  /** toUserResponse: null for a null user, otherwise its id, username,
      email and timestamps. */
  function ToUserResponse(entity: UserEntity?): (r: Option<UserResponse>)
    reads entity
    ensures entity == null <==> r.None?
    ensures entity != null ==> (
      r.value.id == entity.id && r.value.username == entity.username && r.value.email == entity.email
      && r.value.createdAt == entity.createdAt && r.value.updatedAt == entity.updatedAt)
  {
    if entity == null then None
    else Some(UserResponse(entity.id, entity.username, entity.email, entity.createdAt, entity.updatedAt))
  }

  function MapToUserResponses(entities: seq<UserEntity?>): (r: seq<Option<UserResponse>>)
    reads set i | 0 <= i < |entities| && entities[i] != null :: entities[i]
    ensures |r| == |entities|
    ensures forall i :: 0 <= i < |r| ==> r[i] == ToUserResponse(entities[i])
  {
    if entities == [] then []
    else [ToUserResponse(entities[0])] + MapToUserResponses(entities[1..])
  }

  /** toUserResponses: the empty list for null, otherwise one response per
      user, in the same order. */
  function ToUserResponses(entities: Option<seq<UserEntity?>>): (r: seq<Option<UserResponse>>)
    reads if entities.Some? then set i | 0 <= i < |entities.value| && entities.value[i] != null :: entities.value[i] else {}
    ensures entities.None? ==> r == []
    ensures entities.Some? ==> |r| == |entities.value|
    ensures entities.Some? ==> forall i :: 0 <= i < |r| ==> r[i] == ToUserResponse(entities.value[i])
  {
    if entities.None? then [] else MapToUserResponses(entities.value)
  }

  /** toUserProfileResponse: the same fields as toUserResponse, in the profile record. */
  function ToUserProfileResponse(entity: UserEntity?): (r: Option<UserProfileResponse>)
    reads entity
    ensures entity == null <==> r.None?
    ensures entity != null ==> (
      r.value.id == entity.id && r.value.username == entity.username && r.value.email == entity.email
      && r.value.createdAt == entity.createdAt && r.value.updatedAt == entity.updatedAt)
  {
    if entity == null then None
    else Some(UserProfileResponse(entity.id, entity.username, entity.email, entity.createdAt, entity.updatedAt))
  }

  /** applyProfileUpdate: sets username and email (null included) and nothing
      else; nothing happens when either argument is null. */
  method ApplyProfileUpdate(request: Option<UserProfileUpdateRequest>, entity: UserEntity?)
    modifies if entity != null then {entity} else {}
    ensures request.None? || entity == null ==>
      (entity == null || (entity.username == old(entity.username) && entity.email == old(entity.email)))
    ensures request.Some? && entity != null ==>
      (entity.username == request.value.username && entity.email == request.value.email)
    ensures entity != null ==> (
      entity.id == old(entity.id) && entity.password == old(entity.password)
      && entity.createdAt == old(entity.createdAt) && entity.updatedAt == old(entity.updatedAt))
  {
    if request.None? || entity == null {
      return;
    }
    entity.username := request.value.username;
    entity.email := request.value.email;
  }
}
