/** AuthService: registration (duplicate checks, then one new user) and login.
    The password encoder, the authentication manager and the token generator
    are functions the service is given. */
module Auth {
  import opened Common
  import opened Exceptions
  import opened Entities
  import opened UserMapper
  import opened Users

  const BEARER := "Bearer"
  const INVALID_CREDENTIALS := "Invalid credentials"

  /** findByUsername(...).isPresent(). */
  predicate UsernameTaken(rows: map<Id, UserRow>, username: string)
  {
    exists id :: id in rows && rows[id].username == username
  }

  /** findAll().stream().anyMatch(u -> u.getEmail().equalsIgnoreCase(email)). */
  predicate EmailTakenIgnoringCase(rows: map<Id, UserRow>, email: string)
  {
    exists id :: id in rows && EqualsIgnoreCase(rows[id].email, email)
  }

  /** The row register stores for a request. */
  function RegisteredRow(request: RegistrationRequest, encode: string -> string,
                         createdAt: Instant, updatedAt: Instant): UserRow
  {
    UserRow(request.username, encode(request.password), request.email, createdAt, updatedAt)
  }

  /** Registration refuses an address that differs from a stored one only in
      case, while a profile update, which looks emails up exactly, lets any
      user take it. */
  lemma CaseVariantEmailOnlyRefusedAtRegistration(rows: map<Id, UserRow>, holder: Id, id: Id, email: string)
    requires holder in rows && EqualsIgnoreCase(rows[holder].email, email)
    requires forall k :: k in rows ==> rows[k].email != email
    ensures EmailTakenIgnoringCase(rows, email)
    ensures !EmailTakenByOther(rows, id, Some(email))
  {
  }

  /** Such a pair exists: a request for "A@x" against a stored "a@x". */
  lemma CaseVariantExample()
    ensures var rows := map[1 := UserRow("ann", "h1", "a@x", 0, 0), 2 := UserRow("bob", "h2", "b@x", 0, 0)];
            EmailTakenIgnoringCase(rows, "A@x") && !EmailTakenByOther(rows, 2, Some("A@x"))
  {
    var rows := map[1 := UserRow("ann", "h1", "a@x", 0, 0), 2 := UserRow("bob", "h2", "b@x", 0, 0)];
    assert LowerAscii('A') == 'a';
    assert EqualsIgnoreCase(rows[1].email, "A@x");
    assert rows[1].email != "A@x" && rows[2].email != "A@x";
  }

  class AuthService {
    const repo: UserRepository
    /** PasswordEncoder.encode. */
    const encode: string -> string
    /** AuthenticationManager.authenticate over the stored users: true when the
        name and raw password are accepted, false when it throws. */
    const authenticate: (map<Id, UserRow>, string, string) -> bool
    /** JwtTokenProvider.generateToken for the authenticated name. */
    const generateToken: string -> string

    constructor (repo: UserRepository, encode: string -> string,
                 authenticate: (map<Id, UserRow>, string, string) -> bool,
                 generateToken: string -> string)
      ensures this.repo == repo && this.encode == encode
      ensures this.authenticate == authenticate && this.generateToken == generateToken
    {
      this.repo := repo;
      this.encode := encode;
      this.authenticate := authenticate;
      this.generateToken := generateToken;
    }

    /** register. A taken username, then an email equal to a stored one
        ignoring case, are refused and nothing is stored. Otherwise the user
        is inserted with the encoded password; if the new credentials are
        then not accepted the transaction rolls back (the identity value
        stays consumed); if they are, the response carries the token, the
        "Bearer" type, 0 as expiry and the new user's view. */
    method Register(request: RegistrationRequest, createdAt: Instant, updatedAt: Instant) returns (r: Result<AuthResponse>)
      requires repo.Valid()
      modifies repo
      ensures repo.Valid()
      ensures UsernameTaken(old(repo.rows), request.username) ==>
        r == Err(BadRequest(USERNAME_TAKEN)) && repo.rows == old(repo.rows) && repo.nextId == old(repo.nextId)
      ensures !UsernameTaken(old(repo.rows), request.username) && EmailTakenIgnoringCase(old(repo.rows), request.email) ==>
        r == Err(BadRequest(EMAIL_IN_USE)) && repo.rows == old(repo.rows) && repo.nextId == old(repo.nextId)
      ensures !UsernameTaken(old(repo.rows), request.username) && !EmailTakenIgnoringCase(old(repo.rows), request.email) ==>
        var id, row := old(repo.nextId), RegisteredRow(request, encode, createdAt, updatedAt);
        repo.nextId == id + 1 && id !in old(repo.rows)
        && (authenticate(old(repo.rows)[id := row], request.username, request.password) ==>
              r == Ok(AuthResponse(generateToken(request.username), BEARER, 0, Some(UserResponseOfRow(id, row))))
              && repo.rows == old(repo.rows)[id := row])
        && (!authenticate(old(repo.rows)[id := row], request.username, request.password) ==>
              r == Err(BadCredentialsError) && repo.rows == old(repo.rows))
    {
      var byUsername := repo.FindByUsername(Some(request.username));
      if byUsername.Some? {
        return Err(BadRequest(USERNAME_TAKEN));
      }
      var emailInUse := exists id :: id in repo.rows && EqualsIgnoreCase(repo.rows[id].email, request.email);
      if emailInUse {
        return Err(BadRequest(EMAIL_IN_USE));
      }
      // an exact duplicate is also a duplicate ignoring case, so the unique constraint holds
      assert forall id :: id in repo.rows ==> repo.rows[id].email != request.email;

      var before := repo.rows;
      var user := new UserEntity(None, Some(request.username), encode(request.password), Some(request.email), createdAt, updatedAt);
      var saved := repo.Save(user);
      var id := saved.value;

      if !authenticate(repo.rows, request.username, request.password) {
        repo.rows := before;
        return Err(BadCredentialsError);
      }
      var token := generateToken(request.username);
      var userResponse := ToUserResponse(user);
      return Ok(AuthResponse(token, BEARER, 0, userResponse));
    }

    /** login. Authentication comes first and its failure propagates; then
        the token is made and the user looked up by name, a missing one
        giving "Invalid credentials". */
    method Login(request: LoginRequest) returns (r: Result<AuthResponse>)
      ensures !authenticate(repo.rows, request.username, request.password) ==> r == Err(BadCredentialsError)
      ensures authenticate(repo.rows, request.username, request.password) && !UsernameTaken(repo.rows, request.username) ==>
        r == Err(BadRequest(INVALID_CREDENTIALS))
      ensures authenticate(repo.rows, request.username, request.password) && UsernameTaken(repo.rows, request.username) ==>
        exists id :: id in repo.rows && repo.rows[id].username == request.username
          && r == Ok(AuthResponse(generateToken(request.username), BEARER, 0, Some(UserResponseOfRow(id, repo.rows[id]))))
    {
      if !authenticate(repo.rows, request.username, request.password) {
        return Err(BadCredentialsError);
      }
      var token := generateToken(request.username);
      var found := repo.FindByUsername(Some(request.username));
      if found.None? {
        return Err(BadRequest(INVALID_CREDENTIALS));
      }
      var user := repo.FindById(found.value);
      return Ok(AuthResponse(token, BEARER, 0, ToUserResponse(user)));
    }
  }
}
