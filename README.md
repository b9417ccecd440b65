# learning-nestjs: the article and user services, modelled in Dafny

This project models the core of a NestJS "RealWorld" style blogging API:

- the article service: slug generation, the filtered and paged article
  listing, creating, updating and deleting articles, favoriting and
  unfavoriting, and the article response;
- the user service: registration, login, lookup by id, profile update, the
  user response and its JWT;
- the authentication middleware, which turns an `Authorization` header into
  the request's user;
- the `@User()` parameter decorator, which hands that user, or one of its
  properties, to a handler.

The database behind the two TypeORM repositories is the value `Tables`. It
holds the `articles` and `users` rows in insertion order, plus the next
values of the two serial keys. A user's side of the favorites join table is
the `favorites` list of article ids on the user row. `Db` is the same store as
a mutable object.

Each operation that writes has two parts:

- a pure function in `ArticleSpec` or `UserSpec`. It maps the store before
  the call to an `Outcome`: the store after the call, plus the value returned
  or the HTTP error thrown.
- a method in `ArticleService` or `UserService`. It performs the same steps on
  a `Db`, and it is proved to leave exactly that store and to return exactly
  that result.

Lookups are first-match searches. The listing is a query: conditions, a sort
by `createdAt` descending, then limit and offset.

Foreign code becomes function parameters:

- `slugify`, bcrypt's `hash` and `compare`, and jsonwebtoken's `sign` and
  `verify`;
- `Math.random()` becomes the draw `rnd` (`Math.random() * 36**6`,
  floored);
- `createdAt`, which the database fills in at insert, becomes the parameter `now`;
- `process.env.JWT_SECRET` becomes `secret`.

JavaScript truthiness is written out: `TruthyString`, `TruthyNumber`, and
`PromiseTruthy`, which holds for every un-awaited promise. Both `null` and
`undefined` are `None`.

Three places in the source behave differently from what their code
evidently intends. Each is modelled as written, with a counterexample lemma,
and again corrected. The rest of the model uses the corrected version. See
"## Findings".

The model follows the code wherever the code and the service's documented
behaviour diverge:

- `tag` is compared with `=` against `%tag%`, so it matches nothing unless a
  tag column literally has the percent signs.
- `favorited` compares the article's *author* with the favorited article ids.
- An unknown `author` or `favorited` username throws a TypeError (HTTP 500)
  instead of returning an empty list.

## Model

| member | source | states |
|---|---|---|
| Js.StatusCode | src/article/article.service.ts:101-105 | NOT_FOUND, FORBIDDEN, CONFLICT and UNPROCESSABLE_ENTITY are answered below 500; an uncaught TypeError or database error becomes exactly 500 |
| Seqs.FirstIndex | src/article/article.service.ts:166 | `findIndex`: the index of the first element satisfying the test; absent exactly when none does |
| Seqs.RemoveAt | src/article/article.service.ts:169 | `splice(k, 1)`: one shorter, earlier elements kept, later ones shifted down by one |
| Seqs.RemoveAtMembers | src/article/article.service.ts:169 | in a list with no repeats, splicing out position k removes exactly that value and keeps the list repeat-free |
| Strings.Split | src/user/middlewares/auth.middleware.ts:19 | `split(' ')`: at least one field, and no field contains the separator |
| Strings.SplitAtFirst | src/user/middlewares/auth.middleware.ts:19 | splitting at the first separator yields the text before it followed by the split of the rest |
| Strings.SplitWhole | src/user/middlewares/auth.middleware.ts:19 | a string without the separator splits into itself alone |
| Strings.JoinSplit | src/article/article.service.ts:45 | joining the fields of a split with the separator gives the string back |
| Strings.SplitJoin | src/article/article.service.ts:45 | splitting a join of separator-free fields gives the fields back (the `simple-array` tag column round trip) |
| Strings.JoinMembers | src/article/article.service.ts:45-47 | a character in no tag and other than the comma is not in the stored tag column |
| Base36.Digit | src/article/article.service.ts:18 | a base-36 digit value becomes a digit character, which is '0' exactly for 0 |
| Base36.DigitValue | src/article/article.service.ts:18 | a digit character has a value below 36 |
| Base36.ToBase36 | src/article/article.service.ts:18 | `toString(36)` of a non-negative number: at least one digit, all digits, no leading zero |
| Base36.FromToBase36 | src/article/article.service.ts:18 | reading back the base-36 text gives the number |
| Base36.ToBase36Magnitude | src/article/article.service.ts:18 | a k-digit rendering is of a number in [36^(k-1), 36^k) |
| Base36.Pow36Monotone | src/article/article.service.ts:18 | powers of 36 grow with the exponent |
| Base36.ToBase36Length | src/article/article.service.ts:18 | the rendering has at most k digits exactly when the number is below 36^k |
| Slug.ToInt32 | src/article/article.service.ts:18 | the bitwise or with 0 lands in the signed 32-bit range and agrees with x modulo 2^32 |
| Slug.ToStringRadix36 | src/article/article.service.ts:18 | `toString(36)` of an integer: a leading '-' exactly for a negative number, digits after it |
| Slug.SuffixAsWritten | src/article/article.service.ts:18 | as written: the suffix starts with '-' exactly for draws of 2^31 and above |
| Slug.Suffix | src/article/article.service.ts:18 | corrected suffix: 1 to 6 base-36 digits that read back as the draw |
| Slug.SuffixAsWrittenBelowTwoTo31 | src/article/article.service.ts:18 | for draws below 2^31 the suffix as written is the corrected one |
| Slug.SuffixAsWrittenNegative | src/article/article.service.ts:18 | for draws from 2^31 to 36^6 the suffix as written starts with '-' and has 7 characters |
| Slug.SuffixAsWrittenCounterexample | src/article/article.service.ts:18 | the draw 2^31 yields a suffix starting with '-' |
| Slug.GetSlug | src/article/article.service.ts:14-19 | corrected: the slug is the slugified title, '_', then 1 to 6 base-36 digits that read back as the draw |
| Slug.GetSlugAsWritten | src/article/article.service.ts:14-19 | as written: the slugified title and '_', then a '-' exactly for draws of 2^31 and above; below 2^31 it is the corrected slug |
| Entities.ProfileDropsOnlyPassword | src/article/article.service.ts:180-188 | a profile is the user minus the password: user and password rebuild the user, and equal profiles mean users equal up to the password |
| Favorites.Marks | src/article/article.service.ts:144 | a user contributes 1 to an article's favorite count exactly when the id is in the user's favorites |
| Favorites.FavCount | src/article/article.service.ts:146-148 | the number of users who favorited an article is at most the number of users |
| Favorites.FavCountUpdate | src/article/article.service.ts:146-151 | rewriting one user changes each count by that user's change of mark |
| Favorites.FavCountAppend | src/user/user.service.ts:31-32 | a new user adds its own mark to each count |
| Favorites.FavCountUnmarked | src/article/article.service.ts:88-94 | an id in nobody's favorites has count 0 |
| Favorites.Consistent | src/article/article.service.ts:144-151 | the invariant the favorites toggles keep: unique article ids, repeat-free favorites lists of issued ids, and each `favoritesCount` equal to the number of users whose list holds the article |
| Favorites.RewriteConsistent | src/article/article.service.ts:146-151 | saving one user and one article keeps the store consistent when the article keeps its id and gets the recount, and the user's list changes only in that id and stays repeat-free |
| Favorites.MarkConsistent | src/article/article.service.ts:146-151 | pushing an unmarked article onto a user's list and incrementing its count keeps the store consistent |
| Favorites.UnmarkConsistent | src/article/article.service.ts:168-173 | splicing an article's entry out of a user's list and decrementing its count keeps the store consistent |
| ArticleSpec.SlugIndex | src/article/article.service.ts:131-133 | `findOne({ slug })` reads the first row with the slug; absent exactly when no row has it |
| UserRepository.UserIndex | src/article/article.service.ts:140-142 | `findOne(userId)` reads the first row with the id; absent exactly when no row has it |
| ArticleSpec.FindBySlug | src/article/article.service.ts:131-133 | the article found is stored and has the slug; absent exactly when no article has it |
| ArticleSpec.SlugIndexSameSlugs | src/article/article.service.ts:126-128 | an update that keeps every slug makes the second read by slug find the same row |
| ArticleSpec.SlugIndexAfterWrite | src/article/article.service.ts:151 | saving an article with its slug unchanged keeps where each slug is found |
| UserRepository.UserIndexAfterWrite | src/article/article.service.ts:150 | saving a user with its id unchanged keeps where each id is found |
| ArticleSpec.CreateArticle | src/article/article.service.ts:84-95 | corrected slug: one row appended with the next id, the dto's fields, the corrected `Slug.GetSlug` slug, count 0, the caller as author; users untouched |
| ArticleSpec.CreateArticleSlugAsWritten | src/article/article.service.ts:88-92 | the stored slug is the one line 18 computes for draws below 2^31 and differs from it for draws of 2^31 and above |
| ArticleSpec.WithoutSlug | src/article/article.service.ts:108 | `delete({ slug })` keeps exactly the rows with another slug and removes at least one row when some row has the slug |
| ArticleSpec.WithoutSlugUnique | src/article/article.service.ts:108 | deleting rows keeps ids unique |
| ArticleSpec.DeleteArticle | src/article/article.service.ts:97-109 | NOT_FOUND exactly when no article has the slug; FORBIDDEN exactly when the one found is someone else's; errors write nothing; otherwise only articles change, every row with the slug goes, and the count deleted is at least 1 |
| ArticleSpec.UpdateWhereId | src/article/article.service.ts:126 | `update(id, dto)` writes the dto to the rows with the id and leaves the others |
| ArticleSpec.UpdateArticle | src/article/article.service.ts:111-129 | the same NOT_FOUND and FORBIDDEN cases as delete; on success the dto is written by id and the re-read returns the found article with the dto applied |
| ArticleSpec.AddToFavorites | src/article/article.service.ts:135-155 | TypeError, with nothing written, exactly when the article or the user is missing |
| ArticleSpec.RemoveFromFavorites | src/article/article.service.ts:157-177 | TypeError, with nothing written, exactly when the user is missing or the article is missing and the user's list is non-empty; a missing article with an empty list returns null |
| ArticleSpec.AddToFavoritesWrites | src/article/article.service.ts:139-151 | when the article is not yet favorited, the store after the call differs only in that user's list, now ending with the id, and that article's count, one higher |
| ArticleSpec.RemoveFromFavoritesWrites | src/article/article.service.ts:161-173 | when the article is favorited, the store after the call differs only in that user's list, with the first entry holding the id spliced out, and that article's count, one lower |
| ArticleSpec.AddToFavoritesEffect | src/article/article.service.ts:144-154 | when not yet favorited, the id is appended to that user's list and that article's count rises by one; when already favorited nothing changes; no other row changes |
| ArticleSpec.RemoveFromFavoritesEffect | src/article/article.service.ts:166-176 | when favorited, exactly the first entry with the id is spliced out and that article's count drops by one; otherwise nothing changes; no other row changes |
| ArticleSpec.AddToFavoritesIdempotent | src/article/article.service.ts:144-152 | favoriting twice is favoriting once |
| ArticleSpec.RemoveFromFavoritesIdempotent | src/article/article.service.ts:166-174 | unfavoriting twice is unfavoriting once, given lists without repeats |
| ArticleSpec.RemoveAfterAddRestores | src/article/article.service.ts:135-177 | unfavoriting right after favoriting restores the store |
| ArticleSpec.AddToFavoritesConsistent | src/article/article.service.ts:146-151 | favoriting keeps every article's count equal to the number of users who favorited it, lists repeat-free, ids unique |
| ArticleSpec.RemoveFromFavoritesConsistent | src/article/article.service.ts:168-173 | unfavoriting keeps the same invariant |
| ArticleSpec.CreateArticleConsistent | src/article/article.service.ts:88-94 | creating an article keeps the invariant: its fresh id is in no list, so count 0 is right |
| ArticleSpec.DeleteArticleConsistent | src/article/article.service.ts:108 | deleting keeps the invariant |
| ArticleSpec.UpdateArticleConsistent | src/article/article.service.ts:126 | updating keeps the invariant |
| Listing.FilterMembers | src/article/article.service.ts:36-65 | an article is listed exactly when it is stored and meets every condition added |
| Listing.FilterNone | src/article/article.service.ts:30-34 | without conditions every article is a candidate |
| Listing.Filter | src/article/article.service.ts:36-65 | the `andWhere` conditions keep at most the rows given, each satisfying every condition |
| Listing.Holds | src/article/article.service.ts:41-63 | `authorId = :id`, `tagList = :tag` compared with the whole column, and `author IN (:...ids)` |
| Listing.TagColumn | src/article/article.service.ts:45-46 | the tag column is the comma join of the tags, and a non-empty list of comma-free tags reads back from it |
| Listing.InsertNewestFirst | src/article/article.service.ts:34 | inserting into a newest-first list keeps it newest first |
| Listing.InsertPermutes | src/article/article.service.ts:34 | inserting adds exactly that article and keeps every other row |
| Listing.Insert | src/article/article.service.ts:34 | inserting into the ordered list adds exactly one row |
| Listing.SortNewestFirst | src/article/article.service.ts:34 | the ordering keeps the number of rows; its order and permutation are `Listing.SortNewestFirstCorrect` |
| Listing.SortNewestFirstCorrect | src/article/article.service.ts:34 | `orderBy('createdAt', 'DESC')` yields a newest-first permutation of the rows |
| Listing.Page | src/article/article.service.ts:67-73 | the page is the contiguous slice starting at the offset (clamped), as long as the limit allows, to the end without a limit |
| Listing.Execute | src/article/article.service.ts:75-81 | `getMany` and `getCount`: a page no longer than the matches nor a set limit, the whole page without limit or offset, and a count of the matches |
| UserRepository.UsernameIndex | src/article/article.service.ts:37-39 | `findOne({ username })` reads a row with the username; absent exactly when none has it |
| Listing.IfTruthy | src/article/article.service.ts:67-73 | limit and offset are applied exactly when truthy (present and non-zero) |
| Listing.ConditionsFor | src/article/article.service.ts:36-65 | TypeError exactly when a truthy author or favorited name matches no user; an author condition exactly for a truthy author, a `tagList = %tag%` condition exactly for a truthy tag, an `author IN ids` condition exactly for a truthy favorited name whose list is non-empty |
| Listing.QueryFor | src/article/article.service.ts:29-73 | the query fails exactly when its conditions do; limit and offset are set exactly when truthy |
| Listing.FindAll | src/article/article.service.ts:29-82 | TypeError exactly when the conditions fail; otherwise a page no longer than the count, a count no larger than the table, and a page no longer than a truthy limit |
| Listing.ConditionsIgnorePaging | src/article/article.service.ts:36-73 | limit and offset add no condition |
| Listing.ExecutePaging | src/article/article.service.ts:67-81 | a paged query lists a slice of the unpaged listing starting at the offset, at most `limit` long, with the same count |
| Listing.FindAllUnfiltered | src/article/article.service.ts:29-82 | with no filters or paging the listing is every article newest first, and the count is the number of articles |
| Listing.FindAllPaging | src/article/article.service.ts:67-81 | the page is a slice of the unpaged listing starting at the offset, no longer than the limit, and the count is the full number of matches |
| Listing.FindAllSound | src/article/article.service.ts:29-81 | every listed article is stored and meets the query's conditions, and the list is newest first |
| Listing.FindAllComplete | src/article/article.service.ts:29-81 | without limit or offset, the listing holds every stored article that meets the conditions, as often as it is stored, and the count is its length |
| Listing.FavoritedWithoutFavorites | src/article/article.service.ts:58-64 | a favorited name whose list is empty does not filter at all |
| Listing.FavoritedComparesAuthor | src/article/article.service.ts:58-64 | filtering by favorited lists exactly the articles whose author id is among the favorited article ids |
| Listing.TagConditionNeedsPercent | src/article/article.service.ts:44-48 | the tag condition never matches an article whose tags contain no '%' |
| Listing.TwoNewestOfFive | src/article/article.service.ts:67-81 | with limit 2 and five matches, the two newest are listed and the count is 5 |
| ArticleService.CreateArticle | src/article/article.service.ts:84-95 | corrected slug: leaves the store and returns the article that `ArticleSpec.CreateArticle` gives |
| ArticleService.DeleteArticle | src/article/article.service.ts:97-109 | leaves the store and returns the result that `ArticleSpec.DeleteArticle` gives |
| ArticleService.UpdateArticle | src/article/article.service.ts:111-129 | leaves the store and returns the result that `ArticleSpec.UpdateArticle` gives |
| ArticleService.AddArticleToFavorites | src/article/article.service.ts:135-155 | leaves the store and returns the result that `ArticleSpec.AddToFavorites` gives |
| ArticleService.DeleteArticleToFavorites | src/article/article.service.ts:157-177 | leaves the store and returns the result that `ArticleSpec.RemoveFromFavorites` gives |
| ArticleService.FindAll | src/article/article.service.ts:29-82 | building the query field by field returns exactly `Listing.FindAll`; the store is not changed |
| ArticleService.BuildArticleResponse | src/article/article.service.ts:179-191 | every article column is kept, and the author becomes the author's profile |
| ArticleService.ArticleResponseHidesPassword | src/article/article.service.ts:179-191 | the response does not depend on the author's password |
| UserSpec.FindById | src/user/user.service.ts:61-63 | a stored user with the id; absent exactly when no user has it |
| UserRepository.EmailIndex | src/user/user.service.ts:36-40 | `findOne({ where: { email } })` reads a row with the email; absent exactly when none has it |
| UserSpec.LoginAsWritten | src/user/user.service.ts:35-59 | as written: UNPROCESSABLE_ENTITY exactly when no user has the email; otherwise that user, whatever the password |
| UserSpec.LoginAsWrittenIgnoresPassword | src/user/user.service.ts:49-56 | as written, the outcome does not depend on the password given |
| UserSpec.LoginAsWrittenCounterexample | src/user/user.service.ts:49-56 | a stored user logs in with a password `compare` rejects |
| UserSpec.Login | src/user/user.service.ts:35-59 | corrected: success exactly when a user has the email and `compare` accepts the password against its hash; otherwise UNPROCESSABLE_ENTITY |
| UserSpec.CreateUserAsWritten | src/user/user.service.ts:19-33 | as written: every call throws CONFLICT and writes nothing |
| UserSpec.CreateUserAsWrittenCounterexample | src/user/user.service.ts:20-29 | registering into an empty store, where nothing is taken, still throws CONFLICT |
| UserSpec.NewUser | src/user/user.service.ts:31-32 | the row a registration inserts: the next id, empty bio and image, no favorites, the password hashed once |
| UserSpec.CreateUser | src/user/user.service.ts:19-33 | corrected: CONFLICT, with nothing written, exactly when the username or email is taken; otherwise one row appended with the next id, empty bio and image, no favorites, the hashed password |
| UserSpec.CreateUserKeepsCredentialsUnique | src/user/user.service.ts:20-29 | registration keeps usernames and emails unique |
| UserSpec.CreateUserStoresHash | src/user/user.service.ts:31-32 | the stored password is the hash, never the plain text when they differ |
| UserSpec.CreateUserConsistent | src/user/user.service.ts:31-32 | registration keeps the favorites invariant |
| UserSpec.UpdateUser | src/user/user.service.ts:65-70 | the row with the id takes the dto's fields and keeps the rest, id, password and favorites included, and the call resolves to the saved object `{ id: userId, ...dto }`, not the whole row; with no such row the save fails and nothing is written |
| UserSpec.Merge | src/user/user.service.ts:69 | a field the dto carries overwrites the column, every other column, id, password and favorites included, is kept |
| UserSpec.UpdateUserConsistent | src/user/user.service.ts:65-70 | a profile update keeps the favorites invariant |
| UserSpec.GenerateJwtSignsIdentity | src/user/user.service.ts:88-90 | the token is `sign` over exactly id, username and email, so users alike in those, signed at the same instant, get the same token |
| UserSpec.GenerateJwt | src/user/user.service.ts:88-90 | `sign` applied to the payload `{ id, username, email }` and the secret |
| UserSpec.BuildUserResponse | src/user/user.service.ts:72-86 | the response is exactly the user's profile plus the token signed over id, username and email |
| UserSpec.UserResponseHidesPassword | src/user/user.service.ts:72-86 | the response does not depend on the password |
| UserService.CreateUser | src/user/user.service.ts:19-33 | leaves the store and returns the result that the corrected `UserSpec.CreateUser` gives |
| UserService.UpdateUser | src/user/user.service.ts:65-70 | leaves the store and returns the saved object that `UserSpec.UpdateUser` gives |
| AuthMiddleware.Token | src/user/middlewares/auth.middleware.ts:19 | the second space-separated field, absent exactly when the header has one field; it has no space |
| AuthMiddleware.TokenIsSecondField | src/user/middlewares/auth.middleware.ts:19 | `<scheme> <jwt>` yields the jwt |
| AuthMiddleware.TokenIgnoresRest | src/user/middlewares/auth.middleware.ts:19 | fields after the second are ignored |
| AuthMiddleware.NoSpaceNoToken | src/user/middlewares/auth.middleware.ts:19-26 | a header without a space gives no token, so no user |
| AuthMiddleware.ResolveUser | src/user/middlewares/auth.middleware.ts:12-29 | no user without a truthy header; a user exactly when there is a token, `verify` accepts it and `findById` of the claimed id neither throws nor finds nothing; that user is what `findById` returned |
| AuthMiddleware.StoreLookup | src/user/user.service.ts:61-63 | `findById` against a store that answers: the lookup of `UserSpec.FindById` |
| AuthMiddleware.LookupFailureIsAnonymous | src/user/middlewares/auth.middleware.ts:21-26 | a `findById` that throws leaves the request anonymous instead of propagating |
| AuthMiddleware.ResolveUserFromStore | src/user/middlewares/auth.middleware.ts:22-23 | against the store, the request gets a stored user with the claimed id, and gets one exactly when that id is stored |
| AuthMiddleware.IssuedTokenAuthenticates | src/user/middlewares/auth.middleware.ts:19-23 | the token in a user response authenticates as that stored user, when ids are unique and `verify` accepts what `sign` produced |
| AuthMiddleware.Request.constructor | src/user/middlewares/auth.middleware.ts:12 | a request carries its `Authorization` header, and no user until the middleware sets one |
| AuthMiddleware.Next.constructor | src/user/middlewares/auth.middleware.ts:12 | `next` starts with no calls |
| AuthMiddleware.Next.Call | src/user/middlewares/auth.middleware.ts:16 | calling `next` adds one to its call count |
| AuthMiddleware.Use | src/user/middlewares/auth.middleware.ts:12-29 | sets `req.user` to the resolved user, null on a missing header, a rejected token or a throwing lookup, and calls `next` exactly once on every path |
| UserDecorator.UserField | src/user/decorators/user.decorator.ts:9 | `user[data]` is a value exactly for a column name and `undefined` otherwise |
| UserDecorator.SelectUser | src/user/decorators/user.decorator.ts:5-13 | `null` exactly without a user; the whole user exactly when `data` is falsy; otherwise `undefined` exactly for a name that is not a column |
| UserDecorator.SelectReadsColumn | src/user/decorators/user.decorator.ts:8-9 | each column name selects that column |
| UserDecorator.SelectExposesPassword | src/user/decorators/user.decorator.ts:8-9 | `@User('password')` yields the stored hash, which the responses hide |
| UserDecorator.SelectedIdIsClaimedId | src/user/decorators/user.decorator.ts:8-12 | behind the middleware, `@User('id')` is `null` exactly when the request did not authenticate and otherwise the id in the token |

## Left out

- Relation loading: every model user carries its favorites, and every article carries its author's id. At run time `findById` loads a user without the `favorites` relation, so `req.user.favorites` is undefined there. The `author` relation on articles is assumed to be loaded with each article; `src/article/article.entity.ts` is not part of this model.
- The favorites join table is not cascaded on delete: the model keeps deleted article ids in users' lists, and the database would drop those join rows. So after a delete the model's `favorited` filter still uses the stale ids, and a list that the cascade would have emptied still filters in the model where the source drops the filter.
- The ORM itself is left out: `create`, `save` by primary key and the SQL text. Ids are assumed unique, so "the row with the id" is well defined. A `save` resolves to the entity written.
- `getCount` is taken to count every match without paging, as the query builder does. The ORM's handling of a limit together with a join is not modelled.
- The tag column is modelled as TypeORM's `simple-array`, a comma-joined string. The entity that declares it is not part of this model.
- Concurrency is left out. The two saves in favoriting and unfavoriting are not atomic, and interleaved requests can lose updates. The model runs each call alone.
- The `userId` argument of `findAll` is not used, as in the source.
- Exceptions thrown by the database, the network or bcrypt are left out. The only database failure modelled is `updateUser`'s insert without a password, as DATABASE_ERROR.
- `null` and `undefined` are the same `None`. The decorator distinguishes `undefined` (an unknown property) from `null` (no user), and the middleware's `findById` of an unknown id gives `None` either way.
- JavaScript property lookup on the prototype (`user['toString']`) is left out; `UserDecorator.UserField` gives `undefined` for every name that is not a column.
- `verify` also throws for an expired token. That falls under the `verify` parameter's rejection, and no clock is modelled.
- The update DTO is modelled with username, email, bio and image. A password in it would be saved unhashed, because `@BeforeInsert` does not run on an update. That case is not modelled.
- ArticleSpec.CreateArticle: the request body is taken to carry only title, description, body and tag list. The validation pipe does not strip other properties, and the spread would copy them: a body carrying `favoritesCount`, `author`, `id`, `createdAt` or `slug` would override count 0, the caller as author or the serial id (`slug` is written after the spread and survives).
- ArticleSpec.UpdateArticle: the same four-field body is assumed; extra properties in it would be written to the row by `update`.
- ArticleService.CreateArticle: stores the corrected slug of `Slug.GetSlug`; for draws of 2^31 and above the source stores the slug of `Slug.GetSlugAsWritten`, with a '-' after the underscore (`ArticleSpec.CreateArticleSlugAsWritten`).
- UserSpec.GenerateJwt: every token is taken to be signed at one instant. jsonwebtoken's `sign` also adds an `iat` claim from the clock, so in the source the same identity signed in different seconds gets different tokens. The `iat` claim is not modelled, and `UserSpec.GenerateJwtSignsIdentity`'s same-token clause holds only at one instant.
- Listing.SortNewestFirst: articles with equal `createdAt` keep table order. `ORDER BY createdAt DESC` leaves the order of ties unspecified, and the database may order them differently in the paged and in the unpaged query. `Listing.ExecutePaging`, `Listing.FindAllPaging` and `Listing.TwoNewestOfFive` therefore describe the source only when no two matching articles share a `createdAt`.
- Slug.GetSlug: is the corrected slug; the slug as line 18 computes it is `Slug.GetSlugAsWritten`.
- The update body is the whole `CreateArticleDto`: the validation pipe in front of `updateArticle` is taken to demand every field, so an update writes title, description, body and tag list. A partial body, where TypeORM would skip the absent columns, is not modelled.
- `verify` returning a string payload, whose `id` is undefined, is not modelled: the claims always carry a numeric id.
- Slug uniqueness is not enforced: two articles can draw the same slug. `findOne` without an ORDER BY then returns some matching row; the model chooses the first in insertion order. Lookups by id, username and email make the same choice.
- Query parameters arrive as strings; the model takes `limit` and `offset` as natural numbers. A non-numeric or negative value, which makes the database query fail, is not modelled.
- `ArticleService.DeleteArticle`: the `DeleteResult` the source returns is modelled as the number of rows deleted; its raw driver result is not modelled.
- Numbers are unbounded except where the source's 32-bit conversion (a bitwise or with 0) matters (`Slug.ToInt32`). Article counts can go below zero only through the unguarded decrement, which the favorites invariant rules out.

## Findings

| source | as written | input that shows it | evidently intended | confidence | as-written member | corrected member |
|---|---|---|---|---|---|---|
| src/article/article.service.ts:18 | the bitwise or with 0 applied to `Math.random() * 36**6` wraps draws of 2^31 and above to negative numbers, so `toString(36)` gives '-' and six digits | a draw of 2147483648, i.e. `Math.random()` at least 0.9866 | a suffix of one to six base-36 digits | high; not executed | Slug.SuffixAsWrittenNegative | Slug.Suffix |
| src/user/user.service.ts:20-29 | `findOne` is not awaited, so `existedUser` is a promise, which is always truthy, and every registration throws CONFLICT | registering "alice" into an empty store | CONFLICT only when the username or the email is taken | high; not executed | UserSpec.CreateUserAsWrittenCounterexample | UserSpec.CreateUser |
| src/user/user.service.ts:49-56 | `compare` is not awaited, so `isPasswordCorrect` is a promise, which is always truthy, and the password is never checked | a stored user logging in with a password `compare` rejects | UNPROCESSABLE_ENTITY for a wrong password | high; not executed | UserSpec.LoginAsWrittenCounterexample | UserSpec.Login |
