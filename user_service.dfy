/** `UserService`: the operations that write the `users` table, run step by
    step against the store and proved to do what module `UserSpec` says. */
module UserService {
  import opened Js
  import opened Seqs
  import opened Entities
  import Spec = UserSpec
  import UserRepository

  /** `createUser(dto)` with the duplicate lookup awaited: refuse a taken
      username or email, otherwise hash the password and insert the row. */
  method CreateUser(db: Db, dto: CreateUserDto, hash: string -> string) returns (r: Result<User>)
    modifies db
    ensures var o := Spec.CreateUser(old(db.Snapshot()), dto, hash);
      db.Snapshot() == o.tables && r == o.result
  {
    var existedUser := FirstIndex(db.users, (u: User) => u.username == dto.username || u.email == dto.email);
    if existedUser.Some? {
      return Err(Conflict);
    }
    var user := User(db.nextUserId, dto.username, dto.email, "", "", hash(dto.password), []);
    db.users := db.users + [user];
    db.nextUserId := db.nextUserId + 1;
    r := Ok(user);
  }

  /** `updateUser(userId, dto)`: save `{ id: userId, ...dto }`, which updates
      the row with that id and is refused when there is none; the call
      resolves to the object saved. */
  method UpdateUser(db: Db, userId: nat, dto: UpdateUserDto) returns (r: Result<Spec.SavedUser>)
    modifies db
    ensures var o := Spec.UpdateUser(old(db.Snapshot()), userId, dto);
      db.Snapshot() == o.tables && r == o.result
  {
    var found := UserRepository.UserIndex(db.users, userId);
    if found.None? {
      return Err(DatabaseError);
    }
    var user := db.users[found.value];
    if dto.username.Some? { user := user.(username := dto.username.value); }
    if dto.email.Some? { user := user.(email := dto.email.value); }
    if dto.bio.Some? { user := user.(bio := dto.bio.value); }
    if dto.image.Some? { user := user.(image := dto.image.value); }
    db.users := db.users[found.value := user];
    r := Ok(Spec.SavedUser(userId, dto));
  }
}
