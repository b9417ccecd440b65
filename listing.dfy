/** `ArticleService.findAll`: the query it builds from the request's query
    string, and what that query selects. The query is always ordered by
    `createdAt`, newest first; each truthy query field adds one condition,
    and `limit` and `offset` are applied only when truthy. */
module Listing {
  import opened Js
  import opened Seqs
  import opened Strings
  import opened Entities
  import opened UserRepository

  /** The query string of `GET /articles`. */
  datatype QueryParams = QueryParams(
    author: Option<string>,
    tag: Option<string>,
    favorited: Option<string>,
    limit: Option<nat>,
    offset: Option<nat>)

  /** One `andWhere` of the query builder. */
  datatype Condition =
    | AuthorIdIs(id: nat)       // articles.authorId = :id
    | TagListIs(value: string)  // articles.tagList = :tag
    | AuthorIn(ids: seq<nat>)   // articles.author IN (:...ids)

  /** The built query: its conditions, and the limit and offset set on it. */
  datatype Query = Query(conditions: seq<Condition>, limit: Option<nat>, offset: Option<nat>)

  /** `{ articles, articlesCount }`. */
  datatype ArticlesResponse = ArticlesResponse(articles: seq<Article>, articlesCount: nat)

  /** The stored form of the tag list column: the tags joined by commas.
      A non-empty list of comma-free tags reads back from the column. */
  function TagColumn(tags: seq<string>): (column: string)
    ensures |tags| >= 1 && (forall i :: 0 <= i < |tags| ==> ',' !in tags[i]) ==> Split(column, ',') == tags
  {
    if |tags| >= 1 && (forall i :: 0 <= i < |tags| ==> ',' !in tags[i]) then
      SplitJoin(tags, ',');
      Join(tags, ',')
    else
      Join(tags, ',')
  }

  /** Whether a row satisfies one condition. */
  predicate Holds(c: Condition, a: Article)
  {
    match c
    case AuthorIdIs(id) => a.author == id
    case TagListIs(value) => TagColumn(a.tagList) == value
    case AuthorIn(ids) => a.author in ids
  }

  /** Whether a row satisfies every condition. */
  predicate Matches(conditions: seq<Condition>, a: Article)
  {
    forall i :: 0 <= i < |conditions| ==> Holds(conditions[i], a)
  }

  /** The rows that satisfy every condition, in table order. */
  function Filter(conditions: seq<Condition>, rows: seq<Article>): (r: seq<Article>)
    ensures |r| <= |rows|
    ensures forall i :: 0 <= i < |r| ==> Matches(conditions, r[i])
  {
    if rows == [] then []
    else if Matches(conditions, rows[0]) then [rows[0]] + Filter(conditions, rows[1..])
    else Filter(conditions, rows[1..])
  }

  /** The filter keeps exactly the rows that satisfy every condition. */
  lemma {:induction false} FilterMembers(conditions: seq<Condition>, rows: seq<Article>, a: Article)
    ensures a in Filter(conditions, rows) <==> a in rows && Matches(conditions, a)
  {
    if rows != [] {
      FilterMembers(conditions, rows[1..], a);
      assert rows == [rows[0]] + rows[1..];
    }
  }

  /** With no condition, every row is kept. */
  lemma {:induction false} FilterNone(rows: seq<Article>)
    ensures Filter([], rows) == rows
  {
    if rows != [] {
      FilterNone(rows[1..]);
      assert rows == [rows[0]] + rows[1..];
    }
  }

  /** Newest first: `createdAt` never increases along the sequence. */
  ghost predicate NewestFirst(s: seq<Article>)
  {
    forall i, j :: 0 <= i < j < |s| ==> s[i].createdAt >= s[j].createdAt
  }

  /** `a` placed before the first row strictly older than it. */
  function Insert(a: Article, s: seq<Article>): (r: seq<Article>)
    ensures |r| == |s| + 1
  {
    if s == [] || a.createdAt >= s[0].createdAt then [a] + s
    else [s[0]] + Insert(a, s[1..])
  }

  /** `ORDER BY createdAt DESC`; rows with equal times keep table order. */
  function SortNewestFirst(s: seq<Article>): (r: seq<Article>)
    ensures |r| == |s|
  {
    if s == [] then [] else Insert(s[0], SortNewestFirst(s[1..]))
  }

  /** No row of `s` is newer than `time`. */
  ghost predicate NoNewerThan(s: seq<Article>, time: int)
  {
    forall i :: 0 <= i < |s| ==> s[i].createdAt <= time
  }

  /** Inserting a row no newer than `time` among rows no newer than `time`
      gives rows no newer than `time`. */
  lemma {:induction false} InsertNoNewer(a: Article, s: seq<Article>, time: int)
    requires a.createdAt <= time && NoNewerThan(s, time)
    ensures NoNewerThan(Insert(a, s), time)
  {
    if s != [] && a.createdAt < s[0].createdAt {
      InsertNoNewer(a, s[1..], time);
      assert Insert(a, s) == [s[0]] + Insert(a, s[1..]);
    }
  }

  /** Inserting keeps the rows and adds `a` once. */
  lemma {:induction false} InsertPermutes(a: Article, s: seq<Article>)
    ensures multiset(Insert(a, s)) == multiset(s) + multiset{a}
  {
    if s != [] && a.createdAt < s[0].createdAt {
      InsertPermutes(a, s[1..]);
      assert s == [s[0]] + s[1..];
    }
  }

  /** Inserting into a newest-first sequence keeps it newest first. */
  lemma {:induction false} InsertNewestFirst(a: Article, s: seq<Article>)
    requires NewestFirst(s)
    ensures NewestFirst(Insert(a, s))
  {
    if s == [] || a.createdAt >= s[0].createdAt {
      var out := [a] + s;
      forall i, j | 0 <= i < j < |out| ensures out[i].createdAt >= out[j].createdAt {
        assert out[j] == s[j - 1];
        if i > 0 {
          assert out[i] == s[i - 1];
        } else if j > 1 {
          assert s[0].createdAt >= s[j - 1].createdAt;
        }
      }
    } else {
      var r := Insert(a, s[1..]);
      assert NewestFirst(s[1..]) by {
        forall i, j | 0 <= i < j < |s[1..]| ensures s[1..][i].createdAt >= s[1..][j].createdAt {
          assert s[1..][i] == s[i + 1] && s[1..][j] == s[j + 1];
        }
      }
      InsertNewestFirst(a, s[1..]);
      assert NoNewerThan(s[1..], s[0].createdAt) by {
        forall i | 0 <= i < |s[1..]| ensures s[1..][i].createdAt <= s[0].createdAt {
          assert s[1..][i] == s[i + 1];
        }
      }
      InsertNoNewer(a, s[1..], s[0].createdAt);
      var out := [s[0]] + r;
      assert Insert(a, s) == out;
      forall i, j | 0 <= i < j < |out| ensures out[i].createdAt >= out[j].createdAt {
        assert out[j] == r[j - 1];
        if i > 0 {
          assert out[i] == r[i - 1];
        }
      }
    }
  }

  /** The sort returns the matching rows, newest first, each as often as it occurs. */
  lemma {:induction false} SortNewestFirstCorrect(s: seq<Article>)
    ensures NewestFirst(SortNewestFirst(s))
    ensures multiset(SortNewestFirst(s)) == multiset(s)
  {
    if s != [] {
      SortNewestFirstCorrect(s[1..]);
      InsertNewestFirst(s[0], SortNewestFirst(s[1..]));
      InsertPermutes(s[0], SortNewestFirst(s[1..]));
      assert s == [s[0]] + s[1..];
    }
  }

  function Min(x: nat, y: nat): nat
  {
    if x <= y then x else y
  }

  /** `OFFSET` then `LIMIT`: the slice that skips `offset` rows and keeps at
      most `limit`; an absent value leaves that side open. */
  function Page(s: seq<Article>, limit: Option<nat>, offset: Option<nat>): (r: seq<Article>)
    ensures var from := if offset.Some? then Min(offset.value, |s|) else 0;
      && from + |r| <= |s|
      && r == s[from .. from + |r|]
      && (limit.None? ==> from + |r| == |s|)
      && (limit.Some? ==> |r| == Min(limit.value, |s| - from))
  {
    var skipped := if offset.Some? then s[Min(offset.value, |s|)..] else s;
    if limit.Some? then skipped[..Min(limit.value, |skipped|)] else skipped
  }

  /** Running a query: the page of the matching rows, newest first, and the
      number of matching rows before paging. */
  function Execute(q: Query, rows: seq<Article>): (r: ArticlesResponse)
    ensures r.articlesCount <= |rows|
    ensures |r.articles| <= r.articlesCount
    ensures q.limit.Some? ==> |r.articles| <= q.limit.value
    ensures q.limit.None? && q.offset.None? ==> |r.articles| == r.articlesCount
  {
    var matching := Filter(q.conditions, rows);
    ArticlesResponse(Page(SortNewestFirst(matching), q.limit, q.offset), |matching|)
  }

  /** A truthy number, or absent. */
  function IfTruthy(n: Option<nat>): (r: Option<nat>)
    ensures r.Some? <==> TruthyNumber(n)
    ensures r.Some? ==> r == n
  {
    if TruthyNumber(n) then n else None
  }

  /** The conditions `findAll` adds. Reading `id` or `favorites` of a
      username no user has throws a TypeError. A truthy `author` adds its
      user's id; a truthy `tag` adds equality with the string `%tag%`; a
      truthy `favorited` adds "author among that user's favorite article
      ids", unless that list is empty. Nothing else adds a condition. */
  function ConditionsFor(users: seq<User>, params: QueryParams): (r: Result<seq<Condition>>)
    ensures r.Err? <==>
              || (TruthyString(params.author) && UsernameIndex(users, params.author.value).None?)
              || (TruthyString(params.favorited) && UsernameIndex(users, params.favorited.value).None?)
    ensures r.Err? ==> r.error == TypeError
    ensures r.Ok? ==>
              && (forall c :: c in r.value && c.AuthorIdIs? ==>
                    TruthyString(params.author) && c == AuthorIdIs(users[UsernameIndex(users, params.author.value).value].id))
              && (TruthyString(params.author) ==> AuthorIdIs(users[UsernameIndex(users, params.author.value).value].id) in r.value)
              && (forall c :: c in r.value && c.TagListIs? ==>
                    TruthyString(params.tag) && c == TagListIs("%" + params.tag.value + "%"))
              && (TruthyString(params.tag) ==> TagListIs("%" + params.tag.value + "%") in r.value)
              && (forall c :: c in r.value && c.AuthorIn? ==>
                    TruthyString(params.favorited) && c == AuthorIn(users[UsernameIndex(users, params.favorited.value).value].favorites)
                    && c.ids != [])
              && (TruthyString(params.favorited) && users[UsernameIndex(users, params.favorited.value).value].favorites != [] ==>
                    AuthorIn(users[UsernameIndex(users, params.favorited.value).value].favorites) in r.value)
  {
    var byAuthor := if TruthyString(params.author) then UsernameIndex(users, params.author.value) else None;
    var byFavorited := if TruthyString(params.favorited) then UsernameIndex(users, params.favorited.value) else None;
    if TruthyString(params.author) && byAuthor.None? then Err(TypeError)
    else if TruthyString(params.favorited) && byFavorited.None? then Err(TypeError)
    else
      var authorCondition := if TruthyString(params.author) then [AuthorIdIs(users[byAuthor.value].id)] else [];
      var tagCondition := if TruthyString(params.tag) then [TagListIs("%" + params.tag.value + "%")] else [];
      var favoritedCondition :=
        if TruthyString(params.favorited) && users[byFavorited.value].favorites != []
        then [AuthorIn(users[byFavorited.value].favorites)] else [];
      Ok(authorCondition + tagCondition + favoritedCondition)
  }

  /** The query `findAll` builds: the conditions above, ordered newest first,
      with `limit` and `offset` set only when truthy (so 0 sets neither). */
  function QueryFor(users: seq<User>, params: QueryParams): (r: Result<Query>)
    ensures r.Err? <==> ConditionsFor(users, params).Err?
    ensures r.Ok? ==> (r.value.limit.Some? <==> TruthyNumber(params.limit))
    ensures r.Ok? ==> (r.value.offset.Some? <==> TruthyNumber(params.offset))
  {
    match ConditionsFor(users, params)
    case Err(e) => Err(e)
    case Ok(conditions) => Ok(Query(conditions, IfTruthy(params.limit), IfTruthy(params.offset)))
  }

  /** `findAll(userId, query)` over the store: a TypeError exactly when a
      truthy `author` or `favorited` names no user; otherwise a page no
      longer than a truthy limit and a count of at least the page. */
  function FindAll(t: Tables, params: QueryParams): (r: Result<ArticlesResponse>)
    ensures r.Err? <==> ConditionsFor(t.users, params).Err?
    ensures r.Err? ==> r.error == TypeError
    ensures r.Ok? ==> |r.value.articles| <= r.value.articlesCount <= |t.articles|
    ensures r.Ok? && TruthyNumber(params.limit) ==> |r.value.articles| <= params.limit.value
  {
    match QueryFor(t.users, params)
    case Err(e) => Err(e)
    case Ok(q) => Ok(Execute(q, t.articles))
  }

  /** With no truthy query field, the listing is every article, newest first,
      and the count is the number of articles. */
  lemma FindAllUnfiltered(t: Tables, params: QueryParams)
    requires !TruthyString(params.author) && !TruthyString(params.tag) && !TruthyString(params.favorited)
    requires !TruthyNumber(params.limit) && !TruthyNumber(params.offset)
    ensures FindAll(t, params) == Ok(ArticlesResponse(SortNewestFirst(t.articles), |t.articles|))
  {
    FilterNone(t.articles);
  }

  /** Limit and offset add no condition. */
  lemma ConditionsIgnorePaging(users: seq<User>, params: QueryParams)
    ensures ConditionsFor(users, params.(limit := None, offset := None)) == ConditionsFor(users, params)
  {
  }

  /** Running a query with paging gives a slice of running it without: it
      starts at the offset, is at most `limit` long, and the count is the
      same. */
  lemma ExecutePaging(q: Query, rows: seq<Article>)
    ensures var paged, full := Execute(q, rows), Execute(Query(q.conditions, None, None), rows);
      var from := if q.offset.Some? then Min(q.offset.value, |full.articles|) else 0;
      && paged.articlesCount == full.articlesCount == |full.articles|
      && from + |paged.articles| <= |full.articles|
      && paged.articles == full.articles[from .. from + |paged.articles|]
      && (q.limit.Some? ==> |paged.articles| <= q.limit.value)
  {
    var matching := Filter(q.conditions, rows);
    var s := SortNewestFirst(matching);
    SortNewestFirstCorrect(matching);
    assert |s| == |multiset(s)| == |matching|;
  }

  /** The page is a run of consecutive rows of the full, unpaged listing,
      starting at the offset and at most `limit` long, and the count is the
      same with or without paging. */
  lemma FindAllPaging(t: Tables, params: QueryParams)
    requires FindAll(t, params).Ok?
    ensures FindAll(t, params.(limit := None, offset := None)).Ok?
    ensures var paged := FindAll(t, params).value;
      var full := FindAll(t, params.(limit := None, offset := None)).value;
      var from := if TruthyNumber(params.offset) then Min(params.offset.value, |full.articles|) else 0;
      && paged.articlesCount == full.articlesCount == |full.articles|
      && from + |paged.articles| <= |full.articles|
      && paged.articles == full.articles[from .. from + |paged.articles|]
      && (TruthyNumber(params.limit) ==> |paged.articles| <= params.limit.value)
  {
    var unpaged := params.(limit := None, offset := None);
    ConditionsIgnorePaging(t.users, params);
    var q := QueryFor(t.users, params).value;
    assert q == Query(q.conditions, IfTruthy(params.limit), IfTruthy(params.offset));
    assert QueryFor(t.users, unpaged) == Ok(Query(q.conditions, None, None));
    assert FindAll(t, params) == Ok(Execute(q, t.articles));
    assert FindAll(t, unpaged) == Ok(Execute(Query(q.conditions, None, None), t.articles));
    ExecutePaging(q, t.articles);
  }

  /** Every listed row satisfies the query and the listing is newest first. */
  lemma FindAllSound(t: Tables, params: QueryParams)
    requires FindAll(t, params).Ok?
    ensures var q, r := QueryFor(t.users, params).value, FindAll(t, params).value;
      && NewestFirst(r.articles)
      && forall a :: a in r.articles ==> a in t.articles && Matches(q.conditions, a)
  {
    var q := QueryFor(t.users, params).value;
    var matching := Filter(q.conditions, t.articles);
    var s := SortNewestFirst(matching);
    SortNewestFirstCorrect(matching);
    var r := FindAll(t, params).value;
    forall a | a in r.articles ensures a in t.articles && Matches(q.conditions, a) {
      assert a in s;
      assert a in multiset(s);
      FilterMembers(q.conditions, t.articles, a);
    }
  }

  /** Without paging the listing is complete: it holds every stored article
      that meets the query's conditions, each as often as it is stored. */
  lemma FindAllComplete(t: Tables, params: QueryParams)
    requires FindAll(t, params).Ok?
    requires !TruthyNumber(params.limit) && !TruthyNumber(params.offset)
    ensures var q, r := QueryFor(t.users, params).value, FindAll(t, params).value;
      && multiset(r.articles) == multiset(Filter(q.conditions, t.articles))
      && r.articlesCount == |r.articles|
      && forall a :: a in t.articles && Matches(q.conditions, a) ==> a in r.articles
  {
    var q := QueryFor(t.users, params).value;
    var matching := Filter(q.conditions, t.articles);
    var s := SortNewestFirst(matching);
    SortNewestFirstCorrect(matching);
    var r := FindAll(t, params).value;
    assert q.limit == None && q.offset == None;
    assert r.articles == s;
    forall a | a in t.articles && Matches(q.conditions, a) ensures a in r.articles {
      FilterMembers(q.conditions, t.articles, a);
      assert a in multiset(matching);
    }
  }

  /** When the `favorited` user has no favorites, the listing is the one
      without the `favorited` field. */
  lemma FavoritedWithoutFavorites(t: Tables, params: QueryParams)
    requires TruthyString(params.favorited)
    requires UsernameIndex(t.users, params.favorited.value).Some?
    requires t.users[UsernameIndex(t.users, params.favorited.value).value].favorites == []
    ensures FindAll(t, params) == FindAll(t, params.(favorited := None))
  {
  }

  /** The `favorited` condition compares the AUTHOR of a row with the user's
      favorite ARTICLE ids: a row qualifies by whom it was written by, not by
      whether it was marked. */
  lemma FavoritedComparesAuthor(t: Tables, name: string, a: Article)
    requires UsernameIndex(t.users, name).Some?
    requires t.users[UsernameIndex(t.users, name).value].favorites != []
    requires name != ""
    ensures var favorites := t.users[UsernameIndex(t.users, name).value].favorites;
      var r := FindAll(t, QueryParams(None, None, Some(name), None, None));
      && r.Ok?
      && (a in r.value.articles <==> a in t.articles && a.author in favorites)
  {
    var favorites := t.users[UsernameIndex(t.users, name).value].favorites;
    var q := Query([AuthorIn(favorites)], None, None);
    assert [] + [] + [AuthorIn(favorites)] == [AuthorIn(favorites)];
    assert QueryFor(t.users, QueryParams(None, None, Some(name), None, None)) == Ok(q);
    var matching := Filter(q.conditions, t.articles);
    SortNewestFirstCorrect(matching);
    FilterMembers(q.conditions, t.articles, a);
    assert a in SortNewestFirst(matching) <==> a in multiset(SortNewestFirst(matching));
  }

  /** The tag condition is equality with `%tag%`, not a pattern: an article
      none of whose tags contains '%' never satisfies it, so a truthy `tag`
      excludes every such article, even one tagged exactly `tag`. */
  lemma TagConditionNeedsPercent(a: Article, tag: string)
    requires forall i :: 0 <= i < |a.tagList| ==> '%' !in a.tagList[i]
    ensures !Holds(TagListIs("%" + tag + "%"), a)
  {
    JoinMembers(a.tagList, ',', '%');
    assert ("%" + tag + "%")[0] == '%';
  }

  /** Limit 2 and no offset on five matching articles lists the two newest
      and counts all five. */
  lemma TwoNewestOfFive(t: Tables, params: QueryParams)
    requires FindAll(t, params).Ok?
    requires params.limit == Some(2) && !TruthyNumber(params.offset)
    requires |Filter(QueryFor(t.users, params).value.conditions, t.articles)| == 5
    ensures var r := FindAll(t, params).value;
      var all := SortNewestFirst(Filter(QueryFor(t.users, params).value.conditions, t.articles));
      && r.articlesCount == 5
      && |all| == 5
      && r.articles == all[..2]
  {
    var matching := Filter(QueryFor(t.users, params).value.conditions, t.articles);
    SortNewestFirstCorrect(matching);
    assert |SortNewestFirst(matching)| == |multiset(matching)| == 5;
  }
}
