/** The persistent entities, the rows the store keeps for them, and the
    request and response records that cross the service boundary. */
module Entities {
  import opened Common

  /** UserEntity: a managed JPA object whose setters change it in place. */
  class UserEntity {
    var id: Option<Id>
    var username: Option<string>
    var password: string
    var email: Option<string>
    var createdAt: Instant
    var updatedAt: Instant

    constructor (id: Option<Id>, username: Option<string>, password: string,
                 email: Option<string>, createdAt: Instant, updatedAt: Instant)
      ensures this.id == id && this.username == username && this.password == password
      ensures this.email == email && this.createdAt == createdAt && this.updatedAt == updatedAt
    {
      this.id := id;
      this.username := username;
      this.password := password;
      this.email := email;
      this.createdAt := createdAt;
      this.updatedAt := updatedAt;
    }
  }

  /** BlogEntity: a post, with a reference to its author. */
  class BlogEntity {
    var id: Option<Id>
    var title: Option<string>
    var slug: string
    var content: Option<string>
    var author: UserEntity?
    var createdAt: Instant
    var updatedAt: Instant
    var imagePath: Option<string>

    constructor (id: Option<Id>, title: Option<string>, slug: string, content: Option<string>,
                 author: UserEntity?, createdAt: Instant, updatedAt: Instant, imagePath: Option<string>)
      ensures this.id == id && this.title == title && this.slug == slug && this.content == content
      ensures this.author == author && this.createdAt == createdAt && this.updatedAt == updatedAt
      ensures this.imagePath == imagePath
    {
      this.id := id;
      this.title := title;
      this.slug := slug;
      this.content := content;
      this.author := author;
      this.createdAt := createdAt;
      this.updatedAt := updatedAt;
      this.imagePath := imagePath;
    }
  }

  /** A stored row of the user_entity table; every column is NOT NULL. */
  datatype UserRow = UserRow(username: string, password: string, email: string,
                             createdAt: Instant, updatedAt: Instant)

  /** A stored row of the blog table; image_path is the only nullable column. */
  datatype PostRow = PostRow(title: string, slug: string, content: string, authorId: Id,
                             createdAt: Instant, updatedAt: Instant, imagePath: Option<string>)

  datatype PostCreateRequest = PostCreateRequest(title: Option<string>, content: Option<string>)

  datatype PostUpdateRequest = PostUpdateRequest(title: Option<string>, content: Option<string>)

  datatype PostResponse = PostResponse(id: Option<Id>, title: Option<string>, slug: string,
                                       content: Option<string>, authorId: Option<Id>,
                                       authorUsername: Option<string>,
                                       createdAt: Instant, updatedAt: Instant)

  datatype UserResponse = UserResponse(id: Option<Id>, username: Option<string>, email: Option<string>,
                                       createdAt: Instant, updatedAt: Instant)

  datatype UserProfileResponse = UserProfileResponse(id: Option<Id>, username: Option<string>,
                                                     email: Option<string>,
                                                     createdAt: Instant, updatedAt: Instant)

  datatype UserProfileUpdateRequest = UserProfileUpdateRequest(username: Option<string>, email: Option<string>)

  /** Registration and login bodies, as they reach the service after bean validation. */
  datatype RegistrationRequest = RegistrationRequest(username: string, email: string, password: string)

  datatype LoginRequest = LoginRequest(username: string, password: string)

  datatype AuthResponse = AuthResponse(accessToken: string, tokenType: string, expiresIn: int,
                                       user: Option<UserResponse>)
}
