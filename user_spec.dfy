/** What each operation of `UserService` does, as functions of the store.
    bcrypt's `hash` and `compare` and jsonwebtoken's `sign` are foreign code
    and are parameters. */
module UserSpec {
  import opened Js
  import opened Seqs
  import opened Entities
  import opened Favorites
  import opened ArticleSpec
  import opened UserRepository

  /** `findById(id)`: the user with that id, absent when there is none. */
  function FindById(users: seq<User>, id: nat): (r: Option<User>)
    ensures r.None? <==> forall j :: 0 <= j < |users| ==> users[j].id != id
    ensures r.Some? ==> r.value in users && r.value.id == id
  {
    match UserIndex(users, id)
    case None => None
    case Some(i) => Some(users[i])
  }

  // ---------------------------------------------------------------- login

  /** `login(dto)` as written: an unknown email fails with
      UNPROCESSABLE_ENTITY; `compare` is not awaited, so the password check
      tests a promise, which is truthy, and never fails. */
  function LoginAsWritten(users: seq<User>, dto: LoginUserDto, compare: (string, string) -> bool): (r: Result<User>)
    ensures r.Err? <==> EmailIndex(users, dto.email).None?
    ensures r.Err? ==> r.error == UnprocessableEntity
    ensures r.Ok? ==> r.value == users[EmailIndex(users, dto.email).value]
  {
    match EmailIndex(users, dto.email)
    case None => Err(UnprocessableEntity)
    case Some(i) =>
      var isPasswordCorrect := Promise(compare(dto.password, users[i].password));
      if PromiseTruthy(isPasswordCorrect) then Ok(users[i])
      else assert false; Err(UnprocessableEntity)
  }

  /** As written, any password logs in to an existing email. */
  lemma LoginAsWrittenIgnoresPassword(users: seq<User>, dto: LoginUserDto,
                                      compare: (string, string) -> bool, password: string)
    ensures LoginAsWritten(users, dto, compare) == LoginAsWritten(users, dto.(password := password), compare)
  {
  }

  /** A user whose stored hash matches no password still logs in. */
  lemma LoginAsWrittenCounterexample()
    ensures var alice := User(1, "alice", "alice@example.com", "", "", "$2b$10$hash", []);
      LoginAsWritten([alice], LoginUserDto("alice@example.com", "wrong"), (p: string, h: string) => false)
        == Ok(alice)
  {
    var alice := User(1, "alice", "alice@example.com", "", "", "$2b$10$hash", []);
    assert EmailIndex([alice], "alice@example.com") == Some(0);
  }

  /** `login(dto)` with `compare` awaited: it succeeds exactly when some user
      has the email and the password matches that user's stored hash. */
  function Login(users: seq<User>, dto: LoginUserDto, compare: (string, string) -> bool): (r: Result<User>)
    ensures r.Ok? <==> EmailIndex(users, dto.email).Some?
                       && compare(dto.password, users[EmailIndex(users, dto.email).value].password)
    ensures r.Ok? ==> r.value == users[EmailIndex(users, dto.email).value]
    ensures r.Err? ==> r.error == UnprocessableEntity
  {
    match EmailIndex(users, dto.email)
    case None => Err(UnprocessableEntity)
    case Some(i) =>
      var isPasswordCorrect := compare(dto.password, users[i].password);
      if !isPasswordCorrect then Err(UnprocessableEntity) else Ok(users[i])
  }

  // ---------------------------------------------------------------- create

  /** The row a registration inserts: the next serial id, empty bio and
      image, no favorites, and the password hashed once before the insert. */
  function NewUser(t: Tables, dto: CreateUserDto, hash: string -> string): User
  {
    User(t.nextUserId, dto.username, dto.email, "", "", hash(dto.password), [])
  }

  /** Some user already has the username or the email. */
  predicate Taken(users: seq<User>, dto: CreateUserDto)
  {
    exists j :: 0 <= j < |users| && (users[j].username == dto.username || users[j].email == dto.email)
  }

  /** `createUser(dto)` as written: the duplicate lookup is not awaited, so
      the test sees a promise, which is truthy, and every call throws
      CONFLICT without writing. */
  function CreateUserAsWritten(t: Tables, dto: CreateUserDto, hash: string -> string): (o: Outcome<User>)
    ensures o == Outcome(t, Err(Conflict))
  {
    var existedUser := Promise(FirstIndex(t.users, (u: User) => u.username == dto.username || u.email == dto.email));
    if PromiseTruthy(existedUser) then Outcome(t, Err(Conflict))
    else assert false; Outcome(t, Err(Conflict))
  }

  /** Even the first registration into an empty store is refused. */
  lemma CreateUserAsWrittenCounterexample(hash: string -> string)
    ensures CreateUserAsWritten(Tables([], [], 1, 1), CreateUserDto("alice", "alice@example.com", "secret"), hash).result
            == Err(Conflict)
    ensures !Taken([], CreateUserDto("alice", "alice@example.com", "secret"))
  {
  }

  /** `createUser(dto)` with the lookup awaited: CONFLICT exactly when the
      username or the email is taken, otherwise the new row is appended. */
  function CreateUser(t: Tables, dto: CreateUserDto, hash: string -> string): (o: Outcome<User>)
    ensures o.result == Err(Conflict) <==> Taken(t.users, dto)
    ensures o.result.Err? ==> o.tables == t
    ensures o.result.Ok? ==>
              && o.result.value == NewUser(t, dto, hash)
              && o.tables == t.(users := t.users + [o.result.value], nextUserId := t.nextUserId + 1)
  {
    var existedUser := FirstIndex(t.users, (u: User) => u.username == dto.username || u.email == dto.email);
    if existedUser.Some? then Outcome(t, Err(Conflict))
    else
      var user := NewUser(t, dto, hash);
      Outcome(t.(users := t.users + [user], nextUserId := t.nextUserId + 1), Ok(user))
  }

  /** No two users share a username or an email. */
  ghost predicate UniqueCredentials(users: seq<User>)
  {
    forall i, j :: 0 <= i < j < |users| ==> users[i].username != users[j].username && users[i].email != users[j].email
  }

  /** Registration keeps usernames and emails unique. */
  lemma CreateUserKeepsCredentialsUnique(t: Tables, dto: CreateUserDto, hash: string -> string)
    requires UniqueCredentials(t.users)
    ensures UniqueCredentials(CreateUser(t, dto, hash).tables.users)
  {
    var o := CreateUser(t, dto, hash);
    if o.result.Ok? {
      var users := o.tables.users;
      forall i, j | 0 <= i < j < |users|
        ensures users[i].username != users[j].username && users[i].email != users[j].email
      {
        if j == |t.users| {
          assert users[i] == t.users[i];
        }
      }
    }
  }

  /** A stored password is the hash of the one given, so it differs from the
      plain text whenever the hash does. */
  lemma CreateUserStoresHash(t: Tables, dto: CreateUserDto, hash: string -> string)
    requires hash(dto.password) != dto.password
    requires !Taken(t.users, dto)
    ensures CreateUser(t, dto, hash).result.Ok?
    ensures CreateUser(t, dto, hash).result.value.password == hash(dto.password) != dto.password
  {
  }

  /** Registration keeps the favorites counters consistent. */
  lemma CreateUserConsistent(t: Tables, dto: CreateUserDto, hash: string -> string)
    requires Consistent(t)
    ensures Consistent(CreateUser(t, dto, hash).tables)
  {
    var o := CreateUser(t, dto, hash);
    if o.result.Ok? {
      forall i | 0 <= i < |t.articles|
        ensures t.articles[i].favoritesCount == FavCount(o.tables.users, t.articles[i].id)
      {
        FavCountAppend(t.users, o.result.value, t.articles[i].id);
      }
    }
  }

  // ---------------------------------------------------------------- update

  /** The profile fields the dto carries written over the user: a field
      the dto has takes its value, every other column keeps its own. */
  function Merge(u: User, dto: UpdateUserDto): (r: User)
    ensures r.id == u.id && r.password == u.password && r.favorites == u.favorites
    ensures r.username == (if dto.username.Some? then dto.username.value else u.username)
    ensures r.email == (if dto.email.Some? then dto.email.value else u.email)
    ensures r.bio == (if dto.bio.Some? then dto.bio.value else u.bio)
    ensures r.image == (if dto.image.Some? then dto.image.value else u.image)
  {
    u.(username := if dto.username.Some? then dto.username.value else u.username,
       email := if dto.email.Some? then dto.email.value else u.email,
       bio := if dto.bio.Some? then dto.bio.value else u.bio,
       image := if dto.image.Some? then dto.image.value else u.image)
  }

  /** The object `updateUser` hands to `save`, `{ id: userId, ...dto }`:
      the id and the fields the dto carries, and nothing else. */
  datatype SavedUser = SavedUser(id: nat, changes: UpdateUserDto)

  /** `updateUser(userId, dto)`: `save({ id: userId, ...dto })` updates the
      user with that id, writing the fields the dto carries and keeping the
      rest, and resolves to the object it was given, not to the whole row.
      With no such user the save is an insert of a row with no password,
      which the database refuses. */
  function UpdateUser(t: Tables, userId: nat, dto: UpdateUserDto): (o: Outcome<SavedUser>)
    ensures o.result.Err? <==> UserIndex(t.users, userId).None?
    ensures o.result.Err? ==> o.result.error == DatabaseError && o.tables == t
    ensures o.result.Ok? ==> o.result.value.id == userId && o.result.value.changes == dto
    ensures o.result.Ok? ==> |o.tables.users| == |t.users|
    ensures o.result.Ok? ==>
              var i := UserIndex(t.users, userId).value;
              var u := o.tables.users[i];
              && o.tables == t.(users := t.users[i := u])
              && u.id == userId && u.password == t.users[i].password && u.favorites == t.users[i].favorites
              && (dto.username.Some? ==> u.username == dto.username.value)
              && (dto.username.None? ==> u.username == t.users[i].username)
              && (dto.email.Some? ==> u.email == dto.email.value)
              && (dto.email.None? ==> u.email == t.users[i].email)
              && (dto.bio.Some? ==> u.bio == dto.bio.value)
              && (dto.bio.None? ==> u.bio == t.users[i].bio)
              && (dto.image.Some? ==> u.image == dto.image.value)
              && (dto.image.None? ==> u.image == t.users[i].image)
  {
    match UserIndex(t.users, userId)
    case None => Outcome(t, Err(DatabaseError))
    case Some(i) =>
      var u := Merge(t.users[i], dto);
      Outcome(t.(users := t.users[i := u]), Ok(SavedUser(userId, dto)))
  }

  /** A profile update keeps the favorites counters consistent. */
  lemma UpdateUserConsistent(t: Tables, userId: nat, dto: UpdateUserDto)
    requires Consistent(t)
    ensures Consistent(UpdateUser(t, userId, dto).tables)
  {
    var o := UpdateUser(t, userId, dto);
    if o.result.Ok? {
      var i := UserIndex(t.users, userId).value;
      forall j | 0 <= j < |t.articles|
        ensures t.articles[j].favoritesCount == FavCount(o.tables.users, t.articles[j].id)
      {
        FavCountUpdate(t.users, i, o.tables.users[i], t.articles[j].id);
      }
    }
  }

  // ---------------------------------------------------------------- responses

  /** The claims a token carries. */
  datatype JwtPayload = JwtPayload(id: nat, username: string, email: string)

  /** `generateJwt(user)`: `sign({ id, username, email }, secret)`. */
  function GenerateJwt(u: User, sign: (JwtPayload, string) -> string, secret: string): string
  {
    sign(JwtPayload(u.id, u.username, u.email), secret)
  }

  /** The token depends on the id, username and email alone. */
  lemma GenerateJwtSignsIdentity(u: User, v: User, sign: (JwtPayload, string) -> string, secret: string)
    requires u.id == v.id && u.username == v.username && u.email == v.email
    ensures GenerateJwt(u, sign, secret) == GenerateJwt(v, sign, secret)
    ensures GenerateJwt(u, sign, secret) == sign(JwtPayload(v.id, v.username, v.email), secret)
  {
  }

  /** A user as the API returns it: the profile and a token. */
  datatype UserView = UserView(
    id: nat,
    username: string,
    email: string,
    bio: string,
    image: string,
    favorites: seq<nat>,
    token: string)

  /** `{ user }`. */
  datatype UserResponse = UserResponse(user: UserView)

  /** The profile a user view shows. */
  function ProfileOfView(v: UserView): Profile
  {
    Profile(v.id, v.username, v.email, v.bio, v.image, v.favorites)
  }

  /** `buildUserResponse(user)`: exactly the user's profile, which leaves out
      the password, plus a token signed over its id, username and email. */
  function BuildUserResponse(u: User, sign: (JwtPayload, string) -> string, secret: string): (r: UserResponse)
    ensures ProfileOfView(r.user) == ProfileOf(u)
    ensures r.user.token == sign(JwtPayload(u.id, u.username, u.email), secret)
  {
    UserResponse(UserView(u.id, u.username, u.email, u.bio, u.image, u.favorites, GenerateJwt(u, sign, secret)))
  }

  /** The response never depends on the password. */
  lemma UserResponseHidesPassword(u: User, sign: (JwtPayload, string) -> string, secret: string, password: string)
    ensures BuildUserResponse(u, sign, secret) == BuildUserResponse(u.(password := password), sign, secret)
  {
  }
}
