/** The `@User()` parameter decorator: a handler's view of the user the
    authentication middleware put on the request. */
module UserDecorator {
  import opened Js
  import opened Entities
  import opened UserSpec
  import opened AuthMiddleware

  /** The value of one property of a user. */
  datatype FieldValue = Number(n: nat) | Text(s: string) | Ids(ids: seq<nat>)

  /** What the decorator hands to the handler: `null`, `undefined`, the whole
      user, or one of its properties. */
  datatype Param = Null | Undefined | Whole(user: User) | Field(value: FieldValue)

  /** The property names a user row has. */
  const Columns: set<string> := {"id", "username", "email", "bio", "image", "password", "favorites"}

  /** `user[name]`: the property's value, `undefined` for a name the user
      does not have. */
  function UserField(u: User, name: string): (r: Param)
    ensures r.Undefined? <==> name !in Columns
    ensures r.Field? <==> name in Columns
  {
    match name
    case "id" => Field(Number(u.id))
    case "username" => Field(Text(u.username))
    case "email" => Field(Text(u.email))
    case "bio" => Field(Text(u.bio))
    case "image" => Field(Text(u.image))
    case "password" => Field(Text(u.password))
    case "favorites" => Field(Ids(u.favorites))
    case _ => Undefined
  }

  /** The decorator's selector: `null` without a user on the request;
      otherwise the whole user when `data` is falsy and its `data` property
      when it is truthy. */
  function SelectUser(user: Option<User>, data: Option<string>): (r: Param)
    ensures r.Null? <==> user.None?
    ensures r.Whole? <==> user.Some? && !TruthyString(data)
    ensures r.Whole? ==> r.user == user.value
    ensures user.Some? && TruthyString(data) ==> (r.Undefined? <==> data.value !in Columns)
  {
    if user.Some? then
      if TruthyString(data) then UserField(user.value, data.value) else Whole(user.value)
    else Null
  }

  /** Each column name selects that column of the user. */
  lemma SelectReadsColumn(u: User)
    ensures SelectUser(Some(u), Some("id")) == Field(Number(u.id))
    ensures SelectUser(Some(u), Some("username")) == Field(Text(u.username))
    ensures SelectUser(Some(u), Some("email")) == Field(Text(u.email))
    ensures SelectUser(Some(u), Some("bio")) == Field(Text(u.bio))
    ensures SelectUser(Some(u), Some("image")) == Field(Text(u.image))
    ensures SelectUser(Some(u), Some("favorites")) == Field(Ids(u.favorites))
  {
  }

  /** Unlike the responses, the decorator does not hide the password hash. */
  lemma SelectExposesPassword(u: User)
    ensures SelectUser(Some(u), Some("password")) == Field(Text(u.password))
  {
  }

  /** Behind the middleware, `@User('id')` is `null` exactly when the request
      did not authenticate, and otherwise the id in the token's claims. */
  lemma SelectedIdIsClaimedId(authorization: Option<string>, verify: (string, string) -> Option<JwtPayload>,
                              secret: string, users: seq<User>)
    ensures var r := SelectUser(ResolveUser(authorization, verify, secret, StoreLookup(users)), Some("id"));
      && (r.Null? <==> ResolveUser(authorization, verify, secret, StoreLookup(users)).None?)
      && (!r.Null? ==> r == Field(Number(verify(Token(authorization.value).value, secret).value.id)))
  {
  }
}
