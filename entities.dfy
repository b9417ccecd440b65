/** The persisted entities, the request bodies, and the relational store that
    holds them. */
module Entities {
  import opened Js

  /** A row of the `users` table. `favorites` is the user's side of the
      favorites join table: the ids of the articles the user marked, in the
      order they were added. */
  datatype User = User(
    id: nat,
    username: string,
    email: string,
    bio: string,
    image: string,
    password: string,
    favorites: seq<nat>)

  /** A row of the `articles` table; `author` is the id of the owning user
      (the many-to-one relation, loaded with every article). */
  datatype Article = Article(
    id: nat,
    slug: string,
    title: string,
    description: string,
    body: string,
    tagList: seq<string>,
    createdAt: int,
    favoritesCount: int,
    author: nat)

  /** The body of a create or update article request. */
  datatype ArticleDto = ArticleDto(title: string, description: string, body: string, tagList: seq<string>)

  /** The body of a registration request. */
  datatype CreateUserDto = CreateUserDto(username: string, email: string, password: string)

  /** The body of a login request. */
  datatype LoginUserDto = LoginUserDto(email: string, password: string)

  /** The body of a profile update: every field is optional, and an absent
      field leaves the stored column as it is. */
  datatype UpdateUserDto = UpdateUserDto(
    username: Option<string>,
    email: Option<string>,
    bio: Option<string>,
    image: Option<string>)

  /** A user as responses show it: every column except the password. */
  datatype Profile = Profile(
    id: nat,
    username: string,
    email: string,
    bio: string,
    image: string,
    favorites: seq<nat>)

  /** `{ id, username, email, bio, image, favorites }` taken from a user. */
  function ProfileOf(u: User): Profile
  {
    Profile(u.id, u.username, u.email, u.bio, u.image, u.favorites)
  }

  /** The user a profile and a password describe. */
  function WithPassword(p: Profile, password: string): User
  {
    User(p.id, p.username, p.email, p.bio, p.image, password, p.favorites)
  }

  /** A profile drops the password and nothing else: the user is the profile
      plus the password, and two users with the same profile differ at most
      in their passwords. */
  lemma ProfileDropsOnlyPassword(u: User, v: User)
    ensures WithPassword(ProfileOf(u), u.password) == u
    ensures ProfileOf(u) == ProfileOf(v) <==> u.(password := v.password) == v
  {
  }

  /** The content of the store at one moment. Rows are kept in insertion
      order, so the first row a query matches is the one with the lowest id;
      the two counters are the next values of the serial primary keys. */
  datatype Tables = Tables(
    articles: seq<Article>,
    users: seq<User>,
    nextArticleId: nat,
    nextUserId: nat)

  /** The relational store behind the two repositories. */
  class Db {
    var articles: seq<Article>
    var users: seq<User>
    var nextArticleId: nat
    var nextUserId: nat

    /** The content of the store. */
    function Snapshot(): (t: Tables)
      reads this
      ensures t.articles == articles && t.users == users
    {
      Tables(articles, users, nextArticleId, nextUserId)
    }

    /** An empty store; serial keys start at 1. */
    constructor ()
      ensures Snapshot() == Tables([], [], 1, 1)
    {
      articles := [];
      users := [];
      nextArticleId := 1;
      nextUserId := 1;
    }
  }
}
