/** The denormalised `favoritesCount` column and the invariant that keeps it
    equal to the number of users who marked the article. */
module Favorites {
  import opened Seqs
  import opened Entities

  /** 1 when the user marked the article, 0 otherwise. */
  function Marks(u: User, articleId: nat): (m: nat)
    ensures m <= 1
    ensures m == 1 <==> articleId in u.favorites
  {
    if articleId in u.favorites then 1 else 0
  }

  /** The number of users whose favorites contain the article. */
  function FavCount(users: seq<User>, articleId: nat): (n: nat)
    ensures n <= |users|
  {
    if users == [] then 0 else Marks(users[0], articleId) + FavCount(users[1..], articleId)
  }

  /** Replacing one user's row changes the count by that row's change alone. */
  lemma {:induction false} FavCountUpdate(users: seq<User>, i: nat, u: User, articleId: nat)
    requires i < |users|
    ensures FavCount(users[i := u], articleId)
            == FavCount(users, articleId) - Marks(users[i], articleId) + Marks(u, articleId)
  {
    if i == 0 {
      assert users[i := u][1..] == users[1..];
    } else {
      FavCountUpdate(users[1..], i - 1, u, articleId);
      assert users[i := u][1..] == users[1..][i - 1 := u];
    }
  }

  /** Appending a user's row adds that row's mark. */
  lemma {:induction false} FavCountAppend(users: seq<User>, u: User, articleId: nat)
    ensures FavCount(users + [u], articleId) == FavCount(users, articleId) + Marks(u, articleId)
  {
    if users != [] {
      FavCountAppend(users[1..], u, articleId);
      assert (users + [u])[1..] == users[1..] + [u];
    }
  }

  /** An article no user marked has count 0. */
  lemma {:induction false} FavCountUnmarked(users: seq<User>, articleId: nat)
    requires forall i :: 0 <= i < |users| ==> articleId !in users[i].favorites
    ensures FavCount(users, articleId) == 0
  {
    if users != [] {
      FavCountUnmarked(users[1..], articleId);
    }
  }

  /** No two article rows share an id. */
  ghost predicate UniqueIds(rows: seq<Article>)
  {
    forall i, j :: 0 <= i < j < |rows| ==> rows[i].id != rows[j].id
  }

  /** The store is consistent when article ids are unique and below the next
      serial value, no user's favorites hold an id twice or an id not yet
      issued, and every article's `favoritesCount` is the number of users
      whose favorites contain it. */
  ghost predicate Consistent(t: Tables)
  {
    && UniqueIds(t.articles)
    && (forall i :: 0 <= i < |t.articles| ==> t.articles[i].id < t.nextArticleId)
    && (forall i :: 0 <= i < |t.users| ==> NoDuplicates(t.users[i].favorites))
    && (forall i, k :: 0 <= i < |t.users| && 0 <= k < |t.users[i].favorites| ==>
          t.users[i].favorites[k] < t.nextArticleId)
    && (forall i :: 0 <= i < |t.articles| ==>
          t.articles[i].favoritesCount == FavCount(t.users, t.articles[i].id))
  }

  /** Rewriting one user's row and one article's row keeps the store
      consistent when the article keeps its id and gets the new count, the
      user's list stays free of repeats and of unissued ids, and the list
      changes at most in that article's id. */
  lemma RewriteConsistent(t: Tables, i: nat, k: nat, a: Article, u: User)
    requires Consistent(t) && i < |t.articles| && k < |t.users|
    requires a.id == t.articles[i].id
    requires NoDuplicates(u.favorites)
    requires forall p :: 0 <= p < |u.favorites| ==> u.favorites[p] < t.nextArticleId
    requires forall x :: x != a.id ==> (x in u.favorites <==> x in t.users[k].favorites)
    requires a.favoritesCount == FavCount(t.users[k := u], a.id)
    ensures Consistent(t.(users := t.users[k := u], articles := t.articles[i := a]))
  {
    var articles, users := t.articles[i := a], t.users[k := u];
    forall j | 0 <= j < |articles|
      ensures articles[j].favoritesCount == FavCount(users, articles[j].id)
    {
      if j != i {
        var id := t.articles[j].id;
        assert id != a.id;
        FavCountUpdate(t.users, k, u, id);
        assert Marks(u, id) == Marks(t.users[k], id);
      }
    }
    assert UniqueIds(articles) by {
      forall p, q | 0 <= p < q < |articles| ensures articles[p].id != articles[q].id {
        assert articles[p].id == t.articles[p].id && articles[q].id == t.articles[q].id;
      }
    }
  }

  /** Marking article `i` for user `k`, who had not marked it, and raising
      its count by one keeps the store consistent. */
  lemma MarkConsistent(t: Tables, i: nat, k: nat)
    requires Consistent(t) && i < |t.articles| && k < |t.users|
    requires t.articles[i].id !in t.users[k].favorites
    ensures var a, u := t.articles[i], t.users[k];
      Consistent(t.(users := t.users[k := u.(favorites := u.favorites + [a.id])],
                    articles := t.articles[i := a.(favoritesCount := a.favoritesCount + 1)]))
  {
    var a, u := t.articles[i], t.users[k];
    var a', u' := a.(favoritesCount := a.favoritesCount + 1), u.(favorites := u.favorites + [a.id]);
    FavCountUpdate(t.users, k, u', a.id);
    assert NoDuplicates(u'.favorites);
    RewriteConsistent(t, i, k, a', u');
  }

  /** Removing entry `p`, which holds article `i`'s id, from user `k`'s list
      and lowering the article's count by one keeps the store consistent. */
  lemma UnmarkConsistent(t: Tables, i: nat, k: nat, p: nat)
    requires Consistent(t) && i < |t.articles| && k < |t.users|
    requires p < |t.users[k].favorites| && t.users[k].favorites[p] == t.articles[i].id
    ensures var a, u := t.articles[i], t.users[k];
      Consistent(t.(users := t.users[k := u.(favorites := RemoveAt(u.favorites, p))],
                    articles := t.articles[i := a.(favoritesCount := a.favoritesCount - 1)]))
  {
    var a, u := t.articles[i], t.users[k];
    var a', u' := a.(favoritesCount := a.favoritesCount - 1), u.(favorites := RemoveAt(u.favorites, p));
    forall x: nat ensures x in u'.favorites <==> x in u.favorites && x != a.id {
      RemoveAtMembers(u.favorites, p, x);
    }
    FavCountUpdate(t.users, k, u', a.id);
    assert forall q :: 0 <= q < |u'.favorites| ==> u'.favorites[q] in u.favorites;
    RewriteConsistent(t, i, k, a', u');
  }
}
