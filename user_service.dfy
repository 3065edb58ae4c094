/** UserRepository and UserService: the user table, its two derived lookups,
    and the service that serves cached user views and updates profiles. The
    two caches ("users" and "userProfiles") are maps held by the service. */
module Users {
  import opened Common
  import opened Exceptions
  import opened Entities
  import opened UserMapper

  const USERNAME_TAKEN := "Username is already taken"
  const EMAIL_IN_USE := "Email is already in use"

  function UserNotFoundMessage(id: Id): string
  {
    "User not found with id " + IdToString(id)
  }

  /** The unique constraints on the username and email columns. */
  predicate UniqueCredentials(rows: map<Id, UserRow>)
  {
    forall a, b :: a in rows && b in rows && a != b ==>
      rows[a].username != rows[b].username && rows[a].email != rows[b].email
  }

  /** Some user other than `id` holds `username`. */
  predicate UsernameTakenByOther(rows: map<Id, UserRow>, id: Id, username: Option<string>)
  {
    username.Some? && exists k :: k in rows && k != id && rows[k].username == username.value
  }

  /** Some user other than `id` holds `email` (compared exactly). */
  predicate EmailTakenByOther(rows: map<Id, UserRow>, id: Id, email: Option<string>)
  {
    email.Some? && exists k :: k in rows && k != id && rows[k].email == email.value
  }

  /** What toUserResponse makes of a stored user. */
  function UserResponseOfRow(id: Id, row: UserRow): UserResponse
  {
    UserResponse(Some(id), Some(row.username), Some(row.email), row.createdAt, row.updatedAt)
  }

  /** What toUserProfileResponse makes of a stored user. */
  function ProfileOfRow(id: Id, row: UserRow): UserProfileResponse
  {
    UserProfileResponse(Some(id), Some(row.username), Some(row.email), row.createdAt, row.updatedAt)
  }

  /** Every cached view is the view of the stored user under the same id. */
  predicate CachesCoherent(rows: map<Id, UserRow>, users: map<Id, UserResponse>,
                           profiles: map<Id, UserProfileResponse>)
  {
    (forall id :: id in users ==> id in rows && users[id] == UserResponseOfRow(id, rows[id]))
    && (forall id :: id in profiles ==> id in rows && profiles[id] == ProfileOfRow(id, rows[id]))
  }

  /** A loaded entity carries exactly the stored row. */
  predicate Holds(e: UserEntity, id: Id, row: UserRow)
    reads e
  {
    e.id == Some(id) && e.username == Some(row.username) && e.password == row.password
    && e.email == Some(row.email) && e.createdAt == row.createdAt && e.updatedAt == row.updatedAt
  }

  /** The row a save writes for an entity whose NOT NULL columns are set. */
  function RowOf(e: UserEntity): UserRow
    reads e
    requires e.username.Some? && e.email.Some?
  {
    UserRow(e.username.value, e.password, e.email.value, e.createdAt, e.updatedAt)
  }

  /** The user_entity table with its IDENTITY counter. */
  class UserRepository {
    var rows: map<Id, UserRow>
    var nextId: Id

    constructor ()
      ensures rows == map[] && nextId == 1 && Valid()
    {
      rows := map[];
      nextId := 1;
    }

    /** Identifiers are positive and below the counter; the unique constraints hold. */
    predicate Valid()
      reads this
    {
      0 < nextId && (forall id :: id in rows ==> 0 < id < nextId) && UniqueCredentials(rows)
    }

    /** findById: a freshly loaded entity, or null. */
    method FindById(id: Id) returns (e: UserEntity?)
      ensures e == null <==> id !in rows
      ensures e != null ==> fresh(e) && Holds(e, id, rows[id])
    {
      if id !in rows {
        return null;
      }
      var row := rows[id];
      e := new UserEntity(Some(id), Some(row.username), row.password, Some(row.email),
                          row.createdAt, row.updatedAt);
    }

    /** findByUsername: the user holding the name; none for a null name, which
        matches no row of a NOT NULL column. */
    method FindByUsername(username: Option<string>) returns (r: Option<Id>)
      ensures r.None? <==> username.None? || forall id :: id in rows ==> rows[id].username != username.value
      ensures r.Some? ==> r.value in rows && rows[r.value].username == username.value
    {
      if username.Some? && exists id :: id in rows && rows[id].username == username.value {
        var id :| id in rows && rows[id].username == username.value;
        return Some(id);
      }
      return None;
    }

    /** findByEmail: the user holding the address, compared exactly; none for null. */
    method FindByEmail(email: Option<string>) returns (r: Option<Id>)
      ensures r.None? <==> email.None? || forall id :: id in rows ==> rows[id].email != email.value
      ensures r.Some? ==> r.value in rows && rows[r.value].email == email.value
    {
      if email.Some? && exists id :: id in rows && rows[id].email == email.value {
        var id :| id in rows && rows[id].email == email.value;
        return Some(id);
      }
      return None;
    }

    /** save: refuses an entity with a null username or email (NOT NULL
        columns); inserts an entity without id under the next identity value
        and sets its id; overwrites the row of an entity with an id. */
    method Save(e: UserEntity) returns (r: Result<Id>)
      modifies this, e
      ensures e.username == old(e.username) && e.email == old(e.email) && e.password == old(e.password)
      ensures e.createdAt == old(e.createdAt) && e.updatedAt == old(e.updatedAt)
      ensures e.username.None? || e.email.None? ==>
        r == Err(NotNullViolation) && rows == old(rows) && nextId == old(nextId) && e.id == old(e.id)
      ensures e.username.Some? && e.email.Some? && old(e.id).None? ==>
        r == Ok(old(nextId)) && e.id == Some(old(nextId)) && nextId == old(nextId) + 1
        && rows == old(rows)[old(nextId) := RowOf(e)]
      ensures e.username.Some? && e.email.Some? && old(e.id).Some? ==>
        r == Ok(old(e.id).value) && e.id == old(e.id) && nextId == old(nextId)
        && rows == old(rows)[old(e.id).value := RowOf(e)]
    {
      if e.username.None? || e.email.None? {
        return Err(NotNullViolation);
      }
      var id: Id;
      if e.id.None? {
        id := nextId;
        nextId := nextId + 1;
        e.id := Some(id);
      } else {
        id := e.id.value;
      }
      rows := rows[id := RowOf(e)];
      return Ok(id);
    }
  }

  /** UserService with its two caches. */
  class UserService {
    const repo: UserRepository
    var usersCache: map<Id, UserResponse>
    var profilesCache: map<Id, UserProfileResponse>

    constructor (repo: UserRepository)
      requires repo.Valid()
      ensures this.repo == repo && usersCache == map[] && profilesCache == map[] && Valid()
    {
      this.repo := repo;
      usersCache := map[];
      profilesCache := map[];
    }

    predicate Valid()
      reads this, repo
    {
      repo.Valid() && CachesCoherent(repo.rows, usersCache, profilesCache)
    }

    /** findUserOrThrow: the loaded user, or "User not found with id N". */
    method FindUserOrThrow(id: Id) returns (r: Result<UserEntity>)
      ensures r.Err? <==> id !in repo.rows
      ensures r.Err? ==> r.error == NotFound(UserNotFoundMessage(id))
      ensures r.Ok? ==> fresh(r.value) && Holds(r.value, id, repo.rows[id])
    {
      var e := repo.FindById(id);
      if e == null {
        return Err(NotFound(UserNotFoundMessage(id)));
      }
      return Ok(e);
    }

    /** getById: served from the "users" cache when present, otherwise loaded,
        mapped and cached. Either way the answer is the stored user's view. */
    method GetById(id: Id) returns (r: Result<UserResponse>)
      requires Valid()
      modifies this
      ensures Valid()
      ensures id !in repo.rows ==> r == Err(NotFound(UserNotFoundMessage(id))) && usersCache == old(usersCache)
      ensures id in repo.rows ==>
        r == Ok(UserResponseOfRow(id, repo.rows[id])) && usersCache == old(usersCache)[id := r.value]
      ensures profilesCache == old(profilesCache)
    {
      if id in usersCache {
        return Ok(usersCache[id]);
      }
      var user := FindUserOrThrow(id);
      if user.Err? {
        return Err(user.error);
      }
      var response := ToUserResponse(user.value).value;
      usersCache := usersCache[id := response];
      return Ok(response);
    }

    /** getProfileById: the same, through the "userProfiles" cache. */
    method GetProfileById(id: Id) returns (r: Result<UserProfileResponse>)
      requires Valid()
      modifies this
      ensures Valid()
      ensures id !in repo.rows ==> r == Err(NotFound(UserNotFoundMessage(id))) && profilesCache == old(profilesCache)
      ensures id in repo.rows ==>
        r == Ok(ProfileOfRow(id, repo.rows[id])) && profilesCache == old(profilesCache)[id := r.value]
      ensures usersCache == old(usersCache)
    {
      if id in profilesCache {
        return Ok(profilesCache[id]);
      }
      var user := FindUserOrThrow(id);
      if user.Err? {
        return Err(user.error);
      }
      var response := ToUserProfileResponse(user.value).value;
      profilesCache := profilesCache[id := response];
      return Ok(response);
    }

    /** evictUserCaches: drops the user's entry from both caches. */
    method EvictUserCaches(id: Id)
      modifies this
      ensures usersCache == old(usersCache) - {id} && profilesCache == old(profilesCache) - {id}
    {
      usersCache := usersCache - {id};
      profilesCache := profilesCache - {id};
    }

    /** updateProfile. In order: the user must exist; the username must not be
        held by another user, then the email; username, email and update time
        are set; both caches drop the user; the save refuses a null username
        or email, and then nothing is stored. */
    method UpdateProfile(id: Id, request: UserProfileUpdateRequest, now: Instant)
      returns (r: Result<UserProfileResponse>)
      requires Valid()
      modifies this, repo
      ensures Valid()
      ensures repo.nextId == old(repo.nextId)
      ensures id !in old(repo.rows) ==>
        r == Err(NotFound(UserNotFoundMessage(id)))
        && repo.rows == old(repo.rows) && usersCache == old(usersCache) && profilesCache == old(profilesCache)
      ensures id in old(repo.rows) && UsernameTakenByOther(old(repo.rows), id, request.username) ==>
        r == Err(BadRequest(USERNAME_TAKEN))
        && repo.rows == old(repo.rows) && usersCache == old(usersCache) && profilesCache == old(profilesCache)
      ensures id in old(repo.rows) && !UsernameTakenByOther(old(repo.rows), id, request.username)
              && EmailTakenByOther(old(repo.rows), id, request.email) ==>
        r == Err(BadRequest(EMAIL_IN_USE))
        && repo.rows == old(repo.rows) && usersCache == old(usersCache) && profilesCache == old(profilesCache)
      ensures id in old(repo.rows) && !UsernameTakenByOther(old(repo.rows), id, request.username)
              && !EmailTakenByOther(old(repo.rows), id, request.email) ==>
        usersCache == old(usersCache) - {id} && profilesCache == old(profilesCache) - {id}
      ensures id in old(repo.rows) && !UsernameTakenByOther(old(repo.rows), id, request.username)
              && !EmailTakenByOther(old(repo.rows), id, request.email)
              && (request.username.None? || request.email.None?) ==>
        r == Err(NotNullViolation) && repo.rows == old(repo.rows)
      ensures id in old(repo.rows) && !UsernameTakenByOther(old(repo.rows), id, request.username)
              && !EmailTakenByOther(old(repo.rows), id, request.email)
              && request.username.Some? && request.email.Some? ==>
        var row := old(repo.rows)[id].(username := request.username.value, email := request.email.value,
                                       updatedAt := now);
        r == Ok(ProfileOfRow(id, row)) && repo.rows == old(repo.rows)[id := row]
    {
      var found := FindUserOrThrow(id);
      if found.Err? {
        return Err(found.error);
      }
      var user := found.value;

      var byUsername := repo.FindByUsername(request.username);
      if byUsername.Some? && byUsername.value != id {
        return Err(BadRequest(USERNAME_TAKEN));
      }
      var byEmail := repo.FindByEmail(request.email);
      if byEmail.Some? && byEmail.value != id {
        return Err(BadRequest(EMAIL_IN_USE));
      }

      r := WriteProfile(id, user, request, now);
    }

    /** The writing step of updateProfile once both names are free: username,
        email and update time are set, both caches drop the user, and the save
        refuses a null username or email. */
    method WriteProfile(id: Id, user: UserEntity, request: UserProfileUpdateRequest, now: Instant)
      returns (r: Result<UserProfileResponse>)
      requires Valid() && id in repo.rows && Holds(user, id, repo.rows[id])
      requires !UsernameTakenByOther(repo.rows, id, request.username)
      requires !EmailTakenByOther(repo.rows, id, request.email)
      modifies this, repo, user
      ensures Valid()
      ensures repo.nextId == old(repo.nextId)
      ensures usersCache == old(usersCache) - {id} && profilesCache == old(profilesCache) - {id}
      ensures request.username.None? || request.email.None? ==>
        r == Err(NotNullViolation) && repo.rows == old(repo.rows)
      ensures request.username.Some? && request.email.Some? ==>
        var row := old(repo.rows)[id].(username := request.username.value, email := request.email.value,
                                       updatedAt := now);
        r == Ok(ProfileOfRow(id, row)) && repo.rows == old(repo.rows)[id := row]
    {
      ApplyProfileUpdate(Some(request), user);
      user.updatedAt := now;
      var saved := repo.Save(user);

      EvictUserCaches(id);

      if saved.Err? {
        return Err(saved.error);
      }
      return Ok(ToUserProfileResponse(user).value);
    }
  }
}
