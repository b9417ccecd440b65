/** `ArticleService`: each operation as the service runs it, step by step,
    against the store, proved to do what module `ArticleSpec` (and, for the
    listing, module `Listing`) says. */
module ArticleService {
  import opened Js
  import opened Seqs
  import opened Entities
  import opened Slug
  import Spec = ArticleSpec
  import opened Listing
  import opened UserRepository

  /** `createArticle(author, dto)`: build the row, then save it. */
  method CreateArticle(db: Db, author: User, dto: ArticleDto,
                       slugify: string -> string, rnd: nat, now: int) returns (r: Article)
    requires rnd < SuffixBound
    modifies db
    ensures var o := Spec.CreateArticle(old(db.Snapshot()), author, dto, slugify, rnd, now);
      db.Snapshot() == o.tables && Ok(r) == o.result
  {
    var article := Article(db.nextArticleId, GetSlug(slugify, dto.title, rnd), dto.title,
                           dto.description, dto.body, dto.tagList, now, 0, author.id);
    db.articles := db.articles + [article];
    db.nextArticleId := db.nextArticleId + 1;
    r := article;
  }

  /** `deleteArticle(slug, userId)`: look up, check existence, check
      ownership, delete by slug. */
  method DeleteArticle(db: Db, slug: string, userId: nat) returns (r: Result<nat>)
    modifies db
    ensures var o := Spec.DeleteArticle(old(db.Snapshot()), slug, userId);
      db.Snapshot() == o.tables && r == o.result
  {
    var article := Spec.FindBySlug(db.articles, slug);
    if article.None? {
      return Err(NotFound);
    }
    if article.value.author != userId {
      return Err(Forbidden);
    }
    var before := |db.articles|;
    db.articles := Spec.WithoutSlug(db.articles, slug);
    r := Ok(before - |db.articles|);
  }

  /** `updateArticle(slug, dto, userId)`: the same two checks, an update by
      the article's id, and a second read by slug. */
  method UpdateArticle(db: Db, slug: string, dto: ArticleDto, userId: nat) returns (r: Result<Option<Article>>)
    modifies db
    ensures var o := Spec.UpdateArticle(old(db.Snapshot()), slug, dto, userId);
      db.Snapshot() == o.tables && r == o.result
  {
    var found := Spec.SlugIndex(db.articles, slug);
    if found.None? {
      return Err(NotFound);
    }
    var article := db.articles[found.value];
    if article.author != userId {
      return Err(Forbidden);
    }
    db.articles := Spec.UpdateWhereId(db.articles, article.id, dto);
    r := Ok(Spec.FindBySlug(db.articles, slug));
  }

  /** `addArticleToFavorites(slug, userId)`: read the article and the user;
      if the user's favorites have no entry for the article, push it, raise
      the counter, and save the user and then the article. */
  method AddArticleToFavorites(db: Db, slug: string, userId: nat) returns (r: Result<Article>)
    modifies db
    ensures var o := Spec.AddToFavorites(old(db.Snapshot()), slug, userId);
      db.Snapshot() == o.tables && r == o.result
  {
    var found := Spec.SlugIndex(db.articles, slug);
    var loaded := UserIndex(db.users, userId);
    if loaded.None? || found.None? {
      return Err(TypeError);
    }
    var article := db.articles[found.value];
    var user := db.users[loaded.value];
    var isNotFavorited := FirstIndex(user.favorites, (f: nat) => f == article.id).None?;
    if isNotFavorited {
      user := user.(favorites := user.favorites + [article.id]);
      article := article.(favoritesCount := article.favoritesCount + 1);
      db.users := db.users[loaded.value := user];
      db.articles := db.articles[found.value := article];
    }
    r := Ok(article);
  }

  /** `deleteArticleToFavorites(slug, userId)`: read the article and the
      user; if the user's favorites have an entry for the article, splice out
      the first one, lower the counter, and save both. */
  method DeleteArticleToFavorites(db: Db, slug: string, userId: nat) returns (r: Result<Option<Article>>)
    modifies db
    ensures var o := Spec.RemoveFromFavorites(old(db.Snapshot()), slug, userId);
      db.Snapshot() == o.tables && r == o.result
  {
    var found := Spec.SlugIndex(db.articles, slug);
    var loaded := UserIndex(db.users, userId);
    if loaded.None? {
      return Err(TypeError);
    }
    var user := db.users[loaded.value];
    if found.None? {
      // the search callback reads the missing article's id only if it runs
      if |user.favorites| > 0 {
        return Err(TypeError);
      }
      return Ok(None);
    }
    var article := db.articles[found.value];
    var articleIndex := FirstIndex(user.favorites, (f: nat) => f == article.id);
    if articleIndex.Some? {
      user := user.(favorites := RemoveAt(user.favorites, articleIndex.value));
      article := article.(favoritesCount := article.favoritesCount - 1);
      db.users := db.users[loaded.value := user];
      db.articles := db.articles[found.value := article];
    }
    r := Ok(Some(article));
  }

  /** `findAll(userId, query)`: start from the ordered query, add one
      condition per truthy field, set limit and offset when truthy, run it.
      `userId` is not used, as in the service. */
  method FindAll(db: Db, userId: nat, params: QueryParams) returns (r: Result<ArticlesResponse>)
    ensures r == Listing.FindAll(db.Snapshot(), params)
  {
    var conditions: seq<Condition> := [];
    ghost var byAuthor: seq<Condition>, byTag: seq<Condition>, byFavorited: seq<Condition> := [], [], [];
    if TruthyString(params.author) {
      var author := UsernameIndex(db.users, params.author.value);
      if author.None? {
        return Err(TypeError);
      }
      conditions := conditions + [AuthorIdIs(db.users[author.value].id)];
      byAuthor := conditions;
    }
    if TruthyString(params.tag) {
      conditions := conditions + [TagListIs("%" + params.tag.value + "%")];
      byTag := [TagListIs("%" + params.tag.value + "%")];
    }
    assert conditions == byAuthor + byTag;
    if TruthyString(params.favorited) {
      var author := UsernameIndex(db.users, params.favorited.value);
      if author.None? {
        return Err(TypeError);
      }
      var ids := db.users[author.value].favorites;
      if |ids| > 0 {
        conditions := conditions + [AuthorIn(ids)];
        byFavorited := [AuthorIn(ids)];
      }
    }
    assert conditions == byAuthor + byTag + byFavorited;
    var limit: Option<nat> := None;
    if TruthyNumber(params.limit) {
      limit := params.limit;
    }
    var offset: Option<nat> := None;
    if TruthyNumber(params.offset) {
      offset := params.offset;
    }
    assert ConditionsFor(db.users, params).Ok?;
    assert TruthyString(params.author) ==> byAuthor == [AuthorIdIs(db.users[UsernameIndex(db.users, params.author.value).value].id)];
    assert !TruthyString(params.author) ==> byAuthor == [];
    assert ConditionsFor(db.users, params) == Ok(conditions);
    r := Ok(Execute(Query(conditions, limit, offset), db.articles));
  }

  /** An article as the API returns it: every column, with the author
      replaced by the author's profile. */
  datatype ArticleView = ArticleView(
    id: nat,
    slug: string,
    title: string,
    description: string,
    body: string,
    tagList: seq<string>,
    createdAt: int,
    favoritesCount: int,
    author: Profile)

  /** `{ article }`. */
  datatype ArticleResponse = ArticleResponse(article: ArticleView)

  /** The article row an article view shows. */
  function ArticleOf(v: ArticleView): Article
  {
    Article(v.id, v.slug, v.title, v.description, v.body, v.tagList, v.createdAt, v.favoritesCount, v.author.id)
  }

  /** `buildArticleResponse(article)` for an article loaded with its author:
      every article column is kept as it is, and the author becomes
      `{ id, username, email, bio, image, favorites }`. */
  function BuildArticleResponse(article: Article, author: User): (r: ArticleResponse)
    requires article.author == author.id
    ensures ArticleOf(r.article) == article
    ensures r.article.author == ProfileOf(author)
  {
    ArticleResponse(ArticleView(article.id, article.slug, article.title, article.description, article.body,
                                article.tagList, article.createdAt, article.favoritesCount, ProfileOf(author)))
  }

  /** The response never depends on the author's password. */
  lemma ArticleResponseHidesPassword(article: Article, author: User, password: string)
    requires article.author == author.id
    ensures BuildArticleResponse(article, author) == BuildArticleResponse(article, author.(password := password))
  {
  }
}
