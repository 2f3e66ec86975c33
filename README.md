# In-memory news store and display helpers, in Dafny

This project models the data core of a Spanish-language news site. There are two parts.

- **`MemStorage`** is the server's in-memory content store. It has three tables: users, categories and articles. Each table is a map from id to record with its own id counter. On top of the tables sit:
  - a constructor that seeds seven default categories;
  - the create operations, which allocate ids;
  - a view-count increment;
  - the read queries. Each query is a filter, attach-category, sort, slice pipeline: lookup by id, username or slug, list all, by category, featured, latest, popular, and a keyword search.
- **Two client helpers:**
  - `truncateText` shortens a text to a maximum length and appends an ellipsis;
  - `formatTimeAgo` phrases an elapsed time as "Hace N unidad".

## Modules

- `Schema` (schema.dfy): the records (`User`, `Category`, `Article`, their insert payloads, `ArticleWithCategory`) and how a create builds a record from its payload.
- `Tables` (tables.dfy): a table is a `map<int, T>` plus its counter.
  - `Values` lists the table in ascending id order. A JavaScript `Map` iterates in insertion order, and insertion order is id order here.
  - `Find` is `Array.prototype.find`.
- `Snapshot` (snapshot.dfy): the six fields of the store as one value, `Store`, and every mutation as a function from the old store to the new one.
- `Ranking` (ranking.dfy): the stable sort the queries apply. `(a, b) => key(b) - key(a)` with a stable `sort` on a list in id order ranks by key descending, then id ascending.
- `Text` (text.dfy): lower-casing, `includes` and `split` on one character.
- `Queries` (queries.dfy): every read query as a function of the store.
- `Storage` (storage.dfy): the class `MemStorage`.
  - Its fields are the three maps and the three counters.
  - Each mutating method is proved to move the fields exactly as the matching `Snapshot` function does.
  - Each query method returns the value of the matching `Queries` function.
  - The seed loop is a `for` loop with its invariant.
- `Decimal` (decimal.dfy): the decimal rendering of an integer, as a template literal prints it, and its parser.
- `Utils` (utils.dfy): `truncateText` and `formatTimeAgo`. The current time is a parameter; times are integer milliseconds.

## Model

| member | source | states |
|---|---|---|
| Schema.NewUser | server/storage.ts:78-83 | the created user has the allocated id and exactly the username and password given |
| Schema.NewCategory | server/storage.ts:96-101 | the created category has the allocated id and exactly the name and slug given |
| Schema.NewArticle | server/storage.ts:182-189 | the created article has the allocated id, view count 0, creation time `now`, and every payload field copied unchanged |
| Tables.Values | server/storage.ts:87 | `Array.from(map.values())`, used as `Store.UserList`, `Store.CategoryList` and `Store.ArticleList`: every record stored under a key below the counter is listed, and the listing has at most counter − 1 records. The converse is `Tables.ValuesMember`; key order and no repeats are `Tables.ValuesIncrease` |
| Tables.ValuesMember | server/storage.ts:73 | a record is in the listing of a table exactly when it is stored under a key below the counter |
| Tables.ValuesAgree | server/storage.ts:87 | two tables that agree below the counter give the same listing |
| Tables.ValuesAppend | server/storage.ts:81 | storing a record under the counter's value appends it at the end of the listing |
| Schema.ArticlesOf | server/storage.ts:105-107 | the articles of a list of entries, position by position |
| Schema.PrependIdsIncrease | server/storage.ts:105 | an article with an id below every id of a list in id order can be put in front and the list stays in id order |
| Tables.ValuesIncrease | server/storage.ts:105 | for any table whose records are keyed by their id (users, categories or articles), the listing is in strictly increasing id order and every id in it is below the counter |
| Tables.FirstIndex | server/storage.ts:73-75 | the index of the first element satisfying the predicate, or none when no element does |
| Tables.Find | server/storage.ts:73-75 | `find`: the result is an element of the list that satisfies the predicate, and every earlier element fails it; none exactly when no element satisfies it |
| Snapshot.Empty | server/storage.ts:40-45 | the store before seeding: empty tables, every counter at 1, and valid |
| Snapshot.ArticleListMember | server/storage.ts:105 | in a valid store, an article is listed exactly when it is stored under its own id |
| Snapshot.ArticleListIdsIncrease | server/storage.ts:105 | in a valid store, the article listing has strictly increasing ids |
| Snapshot.AddUser | server/storage.ts:78-83 | createUser: the new user gets the counter's old value as id and is stored under it. The counter rises by exactly one. The key set gains exactly that id and other users are unchanged. Other tables and counters are unchanged. Validity is preserved, the id was free, and the user listing gains the new user at its end |
| Snapshot.AddCategory | server/storage.ts:96-101 | createCategory: the same allocation, storage, "nothing else changes" and append-at-end properties for categories; no uniqueness check on name or slug |
| Snapshot.AddArticle | server/storage.ts:182-192 | createArticle: the same allocation and storage properties. The view count is 0, the creation time is the clock reading, and the payload is copied unchanged. Neither the category nor the slug is checked |
| Snapshot.AddView | server/storage.ts:194-201 | incrementArticleViews: no result exactly when the id is not stored. Otherwise the article's view count rises by exactly 1, its other fields stay as they were, the other articles and every other table and counter are unchanged, and validity is preserved |
| Snapshot.AddViewsAddsK | server/storage.ts:194-201 | k successful increments add exactly k to the view count and change nothing else |
| Snapshot.DefaultCategories | server/storage.ts:52-60 | the seven category payloads the constructor seeds (Política/politica through Ciencia/ciencia), with pairwise distinct names and pairwise distinct slugs |
| Snapshot.Numbered | server/storage.ts:62-64 | the categories createCategory builds for a list of payloads from a starting counter: the i-th has id first+i and exactly the i-th payload |
| Snapshot.AddCategories | server/storage.ts:62-64 | the seed loop: only the category table and its counter change. The counter advances by one per payload, the new keys are exactly the ids in between, validity is kept, and the listing gains the new categories at its end in payload order, the i-th under the i-th new id |
| Snapshot.AddCategoriesStep | server/storage.ts:62-64 | seeding one more payload is one more createCategory |
| Snapshot.Seeded | server/storage.ts:39-65 | a fresh store is valid and holds no users or articles. It holds exactly seven categories, under ids 1..7, listed in the default order (Política/politica through Ciencia/ciencia), the i-th under id i+1. The category counter is 8 and the other counters are 1 |
| Snapshot.SeededFromEmpty | server/storage.ts:39-49 | seeding the empty store with the default categories gives the seeded store |
| Ranking.RankedIsNonIncreasing | server/storage.ts:108-110 | a list ranked by a key is non-increasing in that key |
| Ranking.PrependRanked | server/storage.ts:108-110 | an element that comes before every element of a ranked list can be put in front of it and the list stays ranked |
| Ranking.FrontBeforeAll | server/storage.ts:108-110 | an element with a key at least the head's and an id below all comes before every element of a ranked list |
| Ranking.HeadBeforeAll | server/storage.ts:108-110 | the head of a ranked list comes before the rest of the list and before any element with a smaller key |
| Ranking.HeadIdBelowAll | server/storage.ts:105 | in a list in id order, the tail is in id order and the head's id is below every id of any permutation of the tail |
| Ranking.Insert | server/storage.ts:108-110 | inserting adds exactly the one element (multiset), and an element with a smaller id than all others keeps a ranked list ranked |
| Ranking.InsertHead | server/storage.ts:108-110 | inserting the head of a list into a sorted permutation of its tail gives a permutation of the list, ranked when the list is in id order |
| Ranking.SortDesc | server/storage.ts:108-110 | the stable sort: the result is a permutation of the input, and for input in id order it is ranked (key descending, then id ascending) |
| Ranking.BeforeAsymmetric | server/storage.ts:108-110 | the ranking order is asymmetric |
| Ranking.TailsPermuted | server/storage.ts:108-110 | two permutations of each other with the same head have tails that are permutations of each other |
| Ranking.RankedSameHead | server/storage.ts:108-110 | two ranked permutations of each other start with the same element |
| Ranking.RankedUnique | server/storage.ts:108-110 | two ranked permutations of the same elements are equal, so the stable sort's output is determined |
| Ranking.SortDescIsTheRankedPermutation | server/storage.ts:108-110 | any ranked permutation of an id-ordered input is exactly the sorted result |
| Text.LowerChar | server/storage.ts:165 | the lower-case of an ASCII upper-case letter, any other character unchanged |
| Text.Lower | server/storage.ts:165 | `toLowerCase` keeps the length and lowers each character |
| Text.LowerIdempotent | server/storage.ts:165 | lower-casing twice is lower-casing once, so the terms of a lower-cased query are already lower-case |
| Text.LowerConcat | server/storage.ts:165 | lower-casing distributes over concatenation |
| Text.Includes | server/storage.ts:172 | `includes` is true exactly when the term occurs at some position |
| Text.IncludesEmpty | server/storage.ts:172 | every string includes the empty term |
| Text.Split | server/storage.ts:165 | `split` on one character: at least one piece, and no piece contains the separator |
| Text.SplitPieceCount | server/storage.ts:165 | there is one more piece than there are separators in the string |
| Text.SplitPieceChars | server/storage.ts:165 | every character of every piece of `split` is a character of the split string |
| Text.JoinSplit | server/storage.ts:165 | joining the pieces with the separator gives the original string back |
| Text.SplitWithoutSeparator | server/storage.ts:165 | a string without the separator splits into itself alone |
| Text.SplitAfterWord | server/storage.ts:165 | a word, a separator and a rest split into the word followed by the pieces of the rest |
| Text.SplitDoubledSeparator | server/storage.ts:165 | two adjacent separators produce an empty piece |
| Text.SplitTrailingSeparator | server/storage.ts:165 | a trailing separator produces an empty last piece |
| Queries.GetUser | server/storage.ts:68-70 | the user stored under the id, absent exactly when none is; in a valid store its id is the one asked for |
| Queries.GetUserByUsername | server/storage.ts:72-76 | the first listed user with that username; absent exactly when no user has it |
| Queries.GetAllCategories | server/storage.ts:86-88 | in a valid store, exactly the stored categories, in strictly increasing id order (the order they were created) |
| Queries.GetCategoryBySlug | server/storage.ts:90-94 | the first listed category with that slug, stored under its own id; absent exactly when no category has it |
| Queries.AttachCategory | server/storage.ts:204-209 | the article unchanged, with the category stored under its categoryId when there is one and none otherwise |
| Queries.Resolve | server/storage.ts:106-107 | keeps exactly the articles whose category resolves, each paired with that category, in the input's id order |
| Queries.TailIdsAbove | server/storage.ts:105 | the tail of a list in id order is in id order and every id in it is above the head's |
| Queries.PrependEntry | server/storage.ts:106-107 | the entry for the head of a list in id order can be put in front of entries for its tail, keeping id order |
| Queries.MatchesAny | server/storage.ts:168-173 | `some` term occurs at some position of the lower-cased title or the lower-cased content; an empty term always matches |
| Queries.Passes | server/storage.ts:128-138 | the test of each list query's `filter`: every article for the unfiltered lists, exactly those with the category's id for getArticlesByCategory, exactly the featured ones for getFeaturedArticles, and exactly those matching some term for searchArticles |
| Queries.Select | server/storage.ts:128 | keeps exactly the articles passing the filter, in id order |
| Queries.SelectAgree | server/storage.ts:138 | filters that agree on every article select the same list |
| Queries.Listing | server/storage.ts:104-111 | filter, attach, drop the unresolved, sort: exactly the listed articles that pass and resolve, ranked by the key in a valid store |
| Queries.ListingLength | server/storage.ts:156-162 | sorting by view count instead of publication time does not change how many articles are listed |
| Queries.GetAllArticles | server/storage.ts:104-111 | exactly the stored articles whose category resolves, each with that category, newest first with ties in id order |
| Queries.GetArticleBySlug | server/storage.ts:113-121 | the first listed article with that slug, returned even when its category does not resolve (then without one); absent exactly when no article has the slug |
| Queries.GetArticlesByCategory | server/storage.ts:123-134 | empty for an unknown slug. Otherwise exactly the stored articles with that category's id that resolve, each carrying that category, newest first |
| Queries.GetFeaturedArticles | server/storage.ts:136-144 | exactly the featured stored articles whose category resolves, newest first |
| Queries.SliceEnd | server/storage.ts:153 | the end index `slice(0, limit)` uses: the limit capped at the length, or counted from the end when negative |
| Queries.Take | server/storage.ts:153 | `slice(0, limit)` is a prefix of that length |
| Queries.GetLatestArticles | server/storage.ts:146-154 | a prefix of getAllArticles, newest first, default limit 6. For a non-negative limit its length is min(limit, number listed); a negative limit drops that many articles from the end, leaving none when it exceeds the number listed |
| Queries.GetPopularArticles | server/storage.ts:156-162 | a prefix of the view-count ranking of every resolving article (ties in id order), as many as getLatestArticles returns, so non-increasing in view count |
| Queries.PopularAreMostViewed | server/storage.ts:156-162 | in a valid store, every resolving article that getPopularArticles leaves out has no more views than any article it returns |
| Queries.SearchTerms | server/storage.ts:165 | at least one term, no term contains a space, every term is already lower-case, and the terms joined by spaces are the lower-cased query |
| Queries.SearchArticles | server/storage.ts:164-180 | exactly the listed articles whose lower-cased title or content includes some term and whose category resolves, newest first |
| Queries.SearchWithEmptyTerm | server/storage.ts:165-173 | when a search term is empty, the search returns every listed article, the same list as getAllArticles |
| Queries.SearchEmptyQuery | server/storage.ts:165-173 | the empty query returns the same list as getAllArticles |
| Queries.SearchDoubledSpace | server/storage.ts:165-173 | any query containing two adjacent spaces returns the same list as getAllArticles |
| Queries.SearchTrailingSpace | server/storage.ts:165-173 | any query ending in a space returns the same list as getAllArticles |
| Queries.CreatedArticleFoundBySlug | server/storage.ts:113-121 | after createArticle with a new slug, getArticleBySlug finds the new article with its category attached as attachCategory does |
| Queries.FreshStoreScenario | server/storage.ts:39-65 | on a fresh store, an article created in a seeded category gets id 1 and view count 0. It is found by its slug with its category attached, and one view increment returns it with view count 1 |
| Queries.CreatedInEmptyTable | server/storage.ts:182-201 | the same on any valid store with no articles and the article counter at 1, when the category is stored |
| Queries.CreatedArticleListed | server/storage.ts:182-192 | after createArticle whose category resolves, getAllArticles contains the new article with that category |
| Storage.MemStorage.constructor | server/storage.ts:39-49 | the fields hold the seeded store |
| Storage.MemStorage.SeedCategories | server/storage.ts:51-65 | the loop leaves the fields equal to the store with each default category created in turn, and validity is kept |
| Storage.MemStorage.CreateUser | server/storage.ts:78-83 | the fields and the result move as AddUser says, and validity is kept |
| Storage.MemStorage.CreateCategory | server/storage.ts:96-101 | the fields and the result move as AddCategory says, and validity is kept |
| Storage.MemStorage.CreateArticle | server/storage.ts:182-192 | the fields and the result move as AddArticle says, and validity is kept |
| Storage.MemStorage.IncrementArticleViews | server/storage.ts:194-201 | an unknown id is reported and changes nothing; otherwise the fields and the result move as AddView says; validity is kept |
| Storage.MemStorage.GetUser | server/storage.ts:68-70 | returns GetUser of the current fields |
| Storage.MemStorage.GetUserByUsername | server/storage.ts:72-76 | returns GetUserByUsername of the current fields |
| Storage.MemStorage.GetAllCategories | server/storage.ts:86-88 | returns GetAllCategories of the current fields |
| Storage.MemStorage.GetCategoryBySlug | server/storage.ts:90-94 | returns GetCategoryBySlug of the current fields |
| Storage.MemStorage.GetAllArticles | server/storage.ts:104-111 | returns GetAllArticles of the current fields |
| Storage.MemStorage.GetArticleBySlug | server/storage.ts:113-121 | returns GetArticleBySlug of the current fields |
| Storage.MemStorage.GetArticlesByCategory | server/storage.ts:123-134 | returns GetArticlesByCategory of the current fields |
| Storage.MemStorage.GetFeaturedArticles | server/storage.ts:136-144 | returns GetFeaturedArticles of the current fields |
| Storage.MemStorage.GetLatestArticles | server/storage.ts:146-154 | returns GetLatestArticles of the current fields, limit 6 by default |
| Storage.MemStorage.GetPopularArticles | server/storage.ts:156-162 | returns GetPopularArticles of the current fields, limit 6 by default |
| Storage.MemStorage.SearchArticles | server/storage.ts:164-180 | returns SearchArticles of the current fields |
| Storage.CreateThenView | server/storage.ts:182-201 | on a fresh store, the article created in a seeded category has id 1, view count 0 and its payload unchanged. getArticleBySlug returns it with the category stored under its categoryId, and one incrementArticleViews returns it with view count 1 |
| Decimal.DigitChar | client/src/lib/utils.ts:19 | the character of a digit is a digit with that value |
| Decimal.NatToString | client/src/lib/utils.ts:19 | the decimal digits of a natural number, at least one, without a leading zero |
| Decimal.IntToString | client/src/lib/utils.ts:19 | the rendering of an integer contains no space and starts with a minus sign exactly when the integer is negative |
| Decimal.ParseNatPositive | client/src/lib/utils.ts:19 | digits without a leading zero denote a positive number |
| Decimal.NatToStringOfParseNat | client/src/lib/utils.ts:19 | a numeral (no leading zero) is the rendering of its own value |
| Decimal.IntToStringOfParseInt | client/src/lib/utils.ts:19 | every text that reads as an integer is that integer's rendering, so "007", "-0" and "+7" read as nothing |
| Decimal.ParseNatToString | client/src/lib/utils.ts:19 | reading back the digits of a natural number gives the number |
| Decimal.ParseIntToString | client/src/lib/utils.ts:19 | reading back the rendering of an integer gives the integer |
| Utils.TruncateText | client/src/lib/utils.ts:33-36 | a text that fits is returned unchanged. A longer one gives its first maxLength characters then "...", of length maxLength + 3. A negative maxLength gives "..." alone |
| Utils.TruncateTextIdempotent | client/src/lib/utils.ts:33-36 | truncating a truncated text again changes nothing |
| Utils.UnitWord | client/src/lib/utils.ts:19-29 | the word each unit prints: segundos, minutos, horas, días, meses, años; every one is a plural, even for a count of 1 |
| Utils.UnitMs | client/src/lib/utils.ts:11-16 | the length of each unit that the floor chain amounts to: 1000 ms, 60·1000, 60·60·1000, 24·60·60·1000, 30 days and 365 days; each is a positive whole number of seconds |
| Utils.UnitOfWord | client/src/lib/utils.ts:19-29 | a word read as a unit is that unit's word |
| Utils.UnitOfUnitWord | client/src/lib/utils.ts:19-29 | every unit word reads back as its unit |
| Utils.UnitWordHasNoSpace | client/src/lib/utils.ts:19-29 | no unit word contains a space |
| Utils.FloorUnique | client/src/lib/utils.ts:11-16 | the floor quotient is the only quotient with a remainder in range |
| Utils.FloorTwice | client/src/lib/utils.ts:11-16 | flooring by a, then by b, is flooring by a·b |
| Utils.ElapsedOf | client/src/lib/utils.ts:10-16 | the successively floored seconds, minutes, hours, days, months and years equal the millisecond difference floored by 1000, 60000, 3600000, 86400000, 30 days and 365 days |
| Utils.TimeAgoUnit | client/src/lib/utils.ts:18-30 | exactly one unit is chosen. Seconds below one minute (including every negative difference), minutes below one hour, hours below one day, days below 30 days, months below 360 days, years from 360 days. The count is the difference floored by the unit's length |
| Utils.SplitThreeWords | client/src/lib/utils.ts:19-29 | three space-free words joined by spaces split back into the three |
| Utils.PhraseWords | client/src/lib/utils.ts:19-29 | a phrase is "Hace", the count's rendering and the unit word, separated by single spaces |
| Utils.ParseTimeAgoOfWords | client/src/lib/utils.ts:19-29 | a text made of "Hace", a rendered count and a unit word reads back as that unit and count |
| Text.JoinThree | client/src/lib/utils.ts:19-29 | three pieces joined by a separator are the pieces with the separator between each pair |
| Utils.ParseTimeAgoExact | client/src/lib/utils.ts:19-29 | a text that reads as a unit and count is exactly "Hace ", the count's rendering, a space and the unit word |
| Utils.Phrase | client/src/lib/utils.ts:19-29 | a phrase starts with "Hace " and reads back as exactly its unit and count, and it is the only text that reads back as that unit and count |
| Utils.FormatTimeAgo | client/src/lib/utils.ts:8-31 | every output is "Hace ", a decimal integer, a space and a unit word, and it reads back as exactly the unit and count of the branch taken. No other text reads back as that unit and count |
| Utils.ZeroYearsBetween360And365Days | client/src/lib/utils.ts:15-30 | from 360 to 364 days ago the output is "Hace 0 años" |
| Utils.FutureDateNegativeSeconds | client/src/lib/utils.ts:10-19 | a date in the future gives "Hace -N segundos", with N the seconds floored toward minus infinity and negated |
| Utils.TimeAgoUnitCorrected | client/src/lib/utils.ts:26-30 | corrected branch choice: months below 365 days, years from 365 days, so a year count is at least 1 and a month count lies in 1..12. It agrees with the original below 360 days |
| Utils.FormatTimeAgoCorrected | client/src/lib/utils.ts:26-30 | the corrected phrase reads back as the corrected unit and count, so a year count read back from it is never 0 |

## Left out

- Asynchrony: every storage method is `async`. The model completes each call at once, and the `Promise` wrappers are dropped.
- Clock: `new Date()` in createArticle and in formatTimeAgo is a parameter `now`, an integer number of milliseconds. `publishedAt` and `createdAt` are integer timestamps, and `new Date(x).getTime()` on them is the identity.
- Exceptions: incrementArticleViews throws "Article with id … not found" for an unknown id. The model returns `ArticleNotFound(id)` with the fields unchanged, and `Snapshot.AddView` returns no store. The message text is not modelled.
- Text.Lower: only ASCII letters are lower-cased. Full Unicode `toLowerCase` (accented capitals such as "Á", length-changing mappings) is not modelled.
- Utils.TruncateText: lengths are counted in Dafny characters, not UTF-16 code units. A text with characters outside the Basic Multilingual Plane is measured differently by `text.length`.
- Decimal.IntToString: it renders every integer in full decimal. JavaScript switches to exponent notation above 10^21, and numbers beyond 2^53 lose precision. Neither is modelled; millisecond differences of real dates are far below both.
- Numbers are unbounded integers. `currentXId++` on a JavaScript number is exact up to 2^53, and that limit is not modelled.
- `isFeatured` is a boolean in the model. A payload without the field (undefined, which `filter` treats as false) is not represented.
- `cn` in client/src/lib/utils.ts is a wrapper over two styling libraries and is not part of this model.
- server/routes.ts, the React client, and client/src/lib/constants.ts and fonts.ts are not part of this model. The routes call storage methods (workshops, events, tags, subscribers, paginated listings) that `MemStorage` does not implement.
- The uniqueness constraints declared in shared/schema.ts (category name and slug, article slug, username) are not enforced by `MemStorage`, and the model does not assume them. The lookups return the first match in id order.
- The code has no error paths beyond the unknown id of incrementArticleViews, and the model adds none. No NotFound, Conflict or InvalidArgument error exists:
  - createArticle with an unknown categoryId stores the article; no NotFound error.
  - creating a duplicate slug or name succeeds; no Conflict error.
  - an empty search query returns every listed article; no InvalidArgument error.
  - a negative limit is passed to `slice`; no InvalidArgument error.
- Popularity orders by `viewCount` alone, as this code does. Other scoring policies (comment and share counts) belong to code that is not part of this model.

## Findings

| source | as written | input that shows it | evidently intended | confidence | as-written member | corrected member |
|---|---|---|---|---|---|---|
| client/src/lib/utils.ts:26-30 | The months branch is left when `diffMonths` (days/30) reaches 12, that is at 360 days, but `diffYears` is days/365. | A date 360 to 364 days ago, e.g. `now - date == 360 * 86400000`, gives "Hace 0 años". | Show months until a full year of 365 days has passed, so the year count is never 0. | not executed | Utils.ZeroYearsBetween360And365Days | Utils.TimeAgoUnitCorrected |
