/** Searches of the `users` table: the row a `findOne` on the user
    repository reads, by primary key, by email or by username. */
module UserRepository {
  import opened Js
  import opened Seqs
  import opened Entities

  /** The row `findOne(id)` reads: the first one with that id. */
  function UserIndex(users: seq<User>, id: nat): (r: Option<nat>)
    ensures r.Some? ==> r.value < |users| && users[r.value].id == id
    ensures r.Some? ==> forall j :: 0 <= j < r.value ==> users[j].id != id
    ensures r.None? <==> forall j :: 0 <= j < |users| ==> users[j].id != id
  {
    FirstIndex(users, (u: User) => u.id == id)
  }

  /** The row `findOne({ username })` reads: the first with that username. */
  function UsernameIndex(users: seq<User>, name: string): (r: Option<nat>)
    ensures r.Some? ==> r.value < |users| && users[r.value].username == name
    ensures r.None? <==> forall j :: 0 <= j < |users| ==> users[j].username != name
  {
    FirstIndex(users, (u: User) => u.username == name)
  }

  /** The row `findOne({ where: { email } })` reads: the first with that email. */
  function EmailIndex(users: seq<User>, email: string): (r: Option<nat>)
    ensures r.Some? ==> r.value < |users| && users[r.value].email == email
    ensures r.None? <==> forall j :: 0 <= j < |users| ==> users[j].email != email
  {
    FirstIndex(users, (u: User) => u.email == email)
  }

  /** Rewriting one user's row without touching its id leaves the first row
      with each id where it was. */
  lemma UserIndexAfterWrite(users: seq<User>, i: nat, u: User, id: nat)
    requires i < |users| && u.id == users[i].id
    ensures UserIndex(users[i := u], id) == UserIndex(users, id)
  {
    var r, r' := UserIndex(users, id), UserIndex(users[i := u], id);
    assert forall j :: 0 <= j < |users| ==> users[i := u][j].id == users[j].id;
    if r.Some? && r'.Some? {
      assert !(r.value < r'.value) && !(r'.value < r.value);
    }
  }
}
