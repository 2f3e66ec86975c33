/**
 * The read queries of the store, as functions of its state. Each list query
 * is the pipeline of the source: the article listing, a filter, the category
 * attached (articles whose category is missing dropped), a stable sort, and
 * for two of them a `slice(0, limit)`.
 */
module Queries {
  import opened Schema
  import opened Text
  import opened Tables
  import opened Ranking
  import opened Snapshot

  /** The limit `getLatestArticles` and `getPopularArticles` use when given none. */
  const DefaultLimit: int := 6

  /** getUser: `users.get(id)`. */
  function GetUser(s: Store, id: int): (r: Option<User>)
    ensures r.Some? <==> id in s.users
    ensures r.Some? ==> r.value == s.users[id]
    ensures r.Some? && s.Valid() ==> r.value.id == id
  {
    if id in s.users then Some(s.users[id]) else None
  }

  /** getUserByUsername: the first listed user with that username. */
  function GetUserByUsername(s: Store, username: string): (r: Option<User>)
    ensures r.Some? ==> r.value in s.UserList() && r.value.username == username
    ensures r.Some? ==> exists i :: 0 <= i < |s.UserList()| && s.UserList()[i] == r.value
                          && forall j :: 0 <= j < i ==> s.UserList()[j].username != username
    ensures r.None? <==> forall u :: u in s.UserList() ==> u.username != username
  {
    Find(s.UserList(), (u: User) => u.username == username)
  }

  /** getAllCategories: every stored category, in id order. */
  function GetAllCategories(s: Store): (r: seq<Category>)
    ensures s.Valid() ==> forall c :: c in r <==> c.id in s.categories && s.categories[c.id] == c
    ensures s.Valid() ==> forall i, j :: 0 <= i < j < |r| ==> r[i].id < r[j].id
  {
    var r := s.CategoryList();
    assert s.Valid() ==> forall c :: c in r <==> c.id in s.categories && s.categories[c.id] == c by {
      if s.Valid() {
        forall c ensures c in r <==> c.id in s.categories && s.categories[c.id] == c {
          ValuesMember(s.categories, s.currentCategoryId, c);
        }
      }
    }
    assert s.Valid() ==> forall i, j :: 0 <= i < j < |r| ==> r[i].id < r[j].id by {
      if s.Valid() { ValuesIncrease(s.categories, s.currentCategoryId, (c: Category) => c.id); }
    }
    r
  }

  /** getCategoryBySlug: the first listed category with that slug. */
  function GetCategoryBySlug(s: Store, slug: string): (r: Option<Category>)
    ensures r.Some? ==> r.value in s.CategoryList() && r.value.slug == slug
    ensures r.Some? ==> exists i :: 0 <= i < |s.CategoryList()| && s.CategoryList()[i] == r.value
                          && forall j :: 0 <= j < i ==> s.CategoryList()[j].slug != slug
    ensures r.None? <==> forall c :: c in s.CategoryList() ==> c.slug != slug
    ensures r.Some? && s.Valid() ==> r.value.id in s.categories && s.categories[r.value.id] == r.value
  {
    var r := Find(s.CategoryList(), (c: Category) => c.slug == slug);
    assert r.Some? && s.Valid() ==> r.value.id in s.categories && s.categories[r.value.id] == r.value by {
      if r.Some? && s.Valid() {
        ValuesMember(s.categories, s.currentCategoryId, r.value);
      }
    }
    r
  }

  /** attachCategory: the article with the category its categoryId names, when there is one. */
  function AttachCategory(s: Store, a: Article): (r: Attached)
    ensures r.article == a
    ensures r.category.Some? <==> a.categoryId in s.categories
    ensures r.category.Some? ==> r.category.value == s.categories[a.categoryId]
    ensures r.category.Some? && s.Valid() ==> r.category.value.id == a.categoryId
  {
    if a.categoryId in s.categories then Attached(a, Some(s.categories[a.categoryId]))
    else Attached(a, None)
  }

  /** `x` pairs article `a` with the stored category its categoryId names. */
  ghost predicate Resolves(s: Store, x: ArticleWithCategory)
  {
    x.article.categoryId in s.categories && x.category == s.categories[x.article.categoryId]
  }

  /**
   * `.map(attachCategory).filter(a => a.category !== undefined)`: the articles
   * whose category resolves, in their order, each with its category.
   */
  function Resolve(s: Store, articles: seq<Article>): (r: seq<ArticleWithCategory>)
    ensures forall x :: x in r <==> x.article in articles && Resolves(s, x)
    ensures IdsIncrease(articles) ==> IdsIncrease(ArticlesOf(r))
  {
    if |articles| == 0 then
      []
    else
      var rest := Resolve(s, articles[1..]);
      assert articles == [articles[0]] + articles[1..];
      assert IdsIncrease(articles) ==> IdsIncrease(ArticlesOf(rest)) by {
        if IdsIncrease(articles) { TailIdsAbove(articles); }
      }
      var attached := AttachCategory(s, articles[0]);
      if attached.category.Some? then
        var x := ArticleWithCategory(articles[0], attached.category.value);
        assert IdsIncrease(articles) ==> IdsIncrease(ArticlesOf([x] + rest)) by {
          if IdsIncrease(articles) { PrependEntry(articles, x, rest); }
        }
        [x] + rest
      else
        rest
  }

  /** The tail of an id-ordered list is id-ordered and above its head. */
  lemma TailIdsAbove(articles: seq<Article>)
    requires |articles| > 0 && IdsIncrease(articles)
    ensures IdsIncrease(articles[1..])
    ensures forall a :: a in articles[1..] ==> articles[0].id < a.id
  {
    forall a | a in articles[1..] ensures articles[0].id < a.id {
      var k :| 0 <= k < |articles[1..]| && articles[1..][k] == a;
      assert articles[k + 1] == a;
    }
  }

  /** An entry for the head of an id-ordered list goes in front of entries for its tail. */
  lemma PrependEntry(articles: seq<Article>, x: ArticleWithCategory, rest: seq<ArticleWithCategory>)
    requires |articles| > 0 && IdsIncrease(articles) && x.article == articles[0]
    requires forall y :: y in rest ==> y.article in articles[1..]
    requires IdsIncrease(ArticlesOf(rest))
    ensures IdsIncrease(ArticlesOf([x] + rest))
  {
    TailIdsAbove(articles);
    forall b | b in ArticlesOf(rest) ensures x.article.id < b.id {
      var k :| 0 <= k < |rest| && ArticlesOf(rest)[k] == b;
      assert rest[k] in rest;
    }
    PrependIdsIncrease(x.article, ArticlesOf(rest));
    assert ArticlesOf([x] + rest) == [x.article] + ArticlesOf(rest);
  }

  /** The filters the list queries apply before attaching categories. */
  datatype ArticleFilter =
    | Everything                       // getAllArticles, getLatestArticles, getPopularArticles
    | InCategory(categoryId: int)      // getArticlesByCategory
    | FeaturedOnly                     // getFeaturedArticles
    | MatchingAny(terms: seq<string>)  // searchArticles

  /**
   * `searchTerms.some(term => title.includes(term) || content.includes(term))`
   * on the lower-cased title and content: some term occurs at some position
   * of one of them. An empty term always matches.
   */
  function MatchesAny(terms: seq<string>, a: Article): (r: bool)
    ensures r <==> exists t, i :: t in terms && (OccursAt(Lower(a.title), t, i) || OccursAt(Lower(a.content), t, i))
    ensures "" in terms ==> r
  {
    assert "" in terms ==> OccursAt(Lower(a.title), "", 0);
    exists t :: t in terms && (Includes(Lower(a.title), t) || Includes(Lower(a.content), t))
  }

  /** The test each list query's `filter` applies. */
  function Passes(f: ArticleFilter, a: Article): (r: bool)
    ensures f.Everything? ==> r
    ensures f.InCategory? ==> (r <==> a.categoryId == f.categoryId)
    ensures f.FeaturedOnly? ==> (r <==> a.isFeatured)
    ensures f.MatchingAny? ==> (r <==> MatchesAny(f.terms, a))
  {
    match f
    case Everything => true
    case InCategory(id) => a.categoryId == id
    case FeaturedOnly => a.isFeatured
    case MatchingAny(terms) => MatchesAny(terms, a)
  }

  /** `.filter(...)`: the articles passing `f`, in their order. */
  function Select(f: ArticleFilter, articles: seq<Article>): (r: seq<Article>)
    ensures forall a :: a in r <==> a in articles && Passes(f, a)
    ensures IdsIncrease(articles) ==> IdsIncrease(r)
  {
    if |articles| == 0 then
      []
    else
      var rest := Select(f, articles[1..]);
      assert articles == [articles[0]] + articles[1..];
      assert IdsIncrease(articles) ==> IdsIncrease(rest) && forall a :: a in rest ==> articles[0].id < a.id by {
        if IdsIncrease(articles) { TailIdsAbove(articles); }
      }
      if Passes(f, articles[0]) then
        assert IdsIncrease(articles) ==> IdsIncrease([articles[0]] + rest) by {
          if IdsIncrease(articles) { PrependIdsIncrease(articles[0], rest); }
        }
        [articles[0]] + rest
      else
        rest
  }

  /** Two filters that agree on every listed article select the same articles. */
  lemma {:induction false} SelectAgree(f: ArticleFilter, g: ArticleFilter, articles: seq<Article>)
    requires forall a :: a in articles ==> (Passes(f, a) <==> Passes(g, a))
    ensures Select(f, articles) == Select(g, articles)
  {
    if |articles| > 0 {
      assert forall a :: a in articles[1..] ==> a in articles;
      SelectAgree(f, g, articles[1..]);
    }
  }

  /**
   * The pipeline: stored articles passing `f` whose category resolves, each
   * with its category, ranked by `key` (ties in ascending id order).
   */
  function Listing(s: Store, f: ArticleFilter, key: SortKey): (r: seq<ArticleWithCategory>)
    ensures forall x :: x in r <==> x.article in s.ArticleList() && Passes(f, x.article) && Resolves(s, x)
    ensures s.Valid() ==> Ranked(key, r)
  {
    var resolved := Resolve(s, Select(f, s.ArticleList()));
    var r := SortDesc(key, resolved);
    assert forall x :: x in r <==> x in resolved by {
      forall x ensures x in r <==> x in resolved {
        assert x in r <==> x in multiset(r);
        assert x in resolved <==> x in multiset(resolved);
      }
    }
    assert s.Valid() ==> IdsIncrease(ArticlesOf(resolved)) by {
      if s.Valid() { ArticleListIdsIncrease(s); }
    }
    r
  }

  /** Listings under the two keys hold the same articles, so they have the same length. */
  lemma ListingLength(s: Store, f: ArticleFilter)
    ensures |Listing(s, f, ByViewCount)| == |Listing(s, f, ByPublishedAt)|
  {
    var resolved := Resolve(s, Select(f, s.ArticleList()));
    assert |Listing(s, f, ByViewCount)| == |multiset(SortDesc(ByViewCount, resolved))| == |multiset(resolved)|;
    assert |Listing(s, f, ByPublishedAt)| == |multiset(SortDesc(ByPublishedAt, resolved))| == |multiset(resolved)|;
  }

  /** getAllArticles: every stored article whose category resolves, newest first. */
  function GetAllArticles(s: Store): (r: seq<ArticleWithCategory>)
    ensures forall x :: x in r <==> x.article in s.ArticleList() && Resolves(s, x)
    ensures s.Valid() ==> Ranked(ByPublishedAt, r)
  {
    Listing(s, Everything, ByPublishedAt)
  }

  /**
   * getArticleBySlug: the first listed article with that slug, with its
   * category when the category resolves and without one when it does not.
   */
  function GetArticleBySlug(s: Store, slug: string): (r: Option<Attached>)
    ensures r.Some? ==> r.value.article in s.ArticleList() && r.value.article.slug == slug
    ensures r.Some? ==> exists i :: 0 <= i < |s.ArticleList()| && s.ArticleList()[i] == r.value.article
                          && forall j :: 0 <= j < i ==> s.ArticleList()[j].slug != slug
    ensures r.Some? ==> (r.value.category.Some? <==> r.value.article.categoryId in s.categories)
    ensures r.Some? && r.value.category.Some? ==> r.value.category.value == s.categories[r.value.article.categoryId]
    ensures r.None? <==> forall a :: a in s.ArticleList() ==> a.slug != slug
  {
    match Find(s.ArticleList(), (a: Article) => a.slug == slug)
    case None => None
    case Some(a) => Some(AttachCategory(s, a))
  }

  /**
   * getArticlesByCategory: empty for an unknown slug; otherwise the stored
   * articles of that category (whose category resolves), newest first.
   */
  function GetArticlesByCategory(s: Store, categorySlug: string): (r: seq<ArticleWithCategory>)
    ensures GetCategoryBySlug(s, categorySlug).None? ==> r == []
    ensures GetCategoryBySlug(s, categorySlug).Some? ==>
      var c := GetCategoryBySlug(s, categorySlug).value;
      forall x :: x in r <==> x.article in s.ArticleList() && x.article.categoryId == c.id && Resolves(s, x)
    ensures s.Valid() ==> Ranked(ByPublishedAt, r)
    ensures s.Valid() ==> forall x :: x in r ==> x.category == GetCategoryBySlug(s, categorySlug).value
  {
    match GetCategoryBySlug(s, categorySlug)
    case None => []
    case Some(c) => Listing(s, InCategory(c.id), ByPublishedAt)
  }

  /** getFeaturedArticles: the stored featured articles whose category resolves, newest first. */
  function GetFeaturedArticles(s: Store): (r: seq<ArticleWithCategory>)
    ensures forall x :: x in r <==> x.article in s.ArticleList() && x.article.isFeatured && Resolves(s, x)
    ensures s.Valid() ==> Ranked(ByPublishedAt, r)
  {
    Listing(s, FeaturedOnly, ByPublishedAt)
  }

  /**
   * The end index of `slice(0, limit)` on a list of length n: a negative
   * limit counts back from the end, and the index is clamped to [0, n].
   */
  function SliceEnd(n: nat, limit: int): (e: nat)
    ensures e <= n
    ensures 0 <= limit ==> e == if limit < n then limit else n
    ensures limit < 0 ==> e == if n + limit < 0 then 0 else n + limit
  {
    if limit < 0 then (if n + limit < 0 then 0 else n + limit)
    else if limit < n then limit
    else n
  }

  /** `s.slice(0, limit)`: a prefix of `s`. */
  function Take<T>(s: seq<T>, limit: int): (r: seq<T>)
    ensures r <= s && |r| == SliceEnd(|s|, limit)
  {
    s[..SliceEnd(|s|, limit)]
  }

  /**
   * getLatestArticles: the first `limit` articles of getAllArticles (6 by
   * default); for limit >= 0 its length is min(limit, number of articles
   * whose category resolves), and a negative limit drops that many from the
   * end.
   */
  function GetLatestArticles(s: Store, limit: int := DefaultLimit): (r: seq<ArticleWithCategory>)
    ensures r <= GetAllArticles(s)
    ensures 0 <= limit ==> |r| == if limit < |GetAllArticles(s)| then limit else |GetAllArticles(s)|
    ensures limit < 0 ==> |r| == if |GetAllArticles(s)| + limit < 0 then 0 else |GetAllArticles(s)| + limit
    ensures s.Valid() ==> Ranked(ByPublishedAt, r)
  {
    Take(GetAllArticles(s), limit)
  }

  /**
   * getPopularArticles: the first `limit` (6 by default) stored articles whose
   * category resolves, most viewed first; as long as getLatestArticles with
   * the same limit.
   */
  function GetPopularArticles(s: Store, limit: int := DefaultLimit): (r: seq<ArticleWithCategory>)
    ensures r <= Listing(s, Everything, ByViewCount)
    ensures forall x :: x in r ==> x.article in s.ArticleList() && Resolves(s, x)
    ensures |r| == |GetLatestArticles(s, limit)|
    ensures s.Valid() ==> Ranked(ByViewCount, r)
    ensures s.Valid() ==> NonIncreasing(ByViewCount, r)
  {
    var ranked := Listing(s, Everything, ByViewCount);
    ListingLength(s, Everything);
    var r := Take(ranked, limit);
    assert s.Valid() ==> NonIncreasing(ByViewCount, r) by {
      if s.Valid() {
        RankedIsNonIncreasing(ByViewCount, r);
      }
    }
    r
  }

  /**
   * The popular articles are the most viewed: every resolving article left
   * out of getPopularArticles has no more views than any article in it.
   */
  lemma PopularAreMostViewed(s: Store, limit: int)
    requires s.Valid()
    ensures var r, all := GetPopularArticles(s, limit), Listing(s, Everything, ByViewCount);
      forall i, j :: 0 <= i < |r| <= j < |all| ==> r[i].article.viewCount >= all[j].article.viewCount
  {
    var r, all := GetPopularArticles(s, limit), Listing(s, Everything, ByViewCount);
    forall i, j | 0 <= i < |r| <= j < |all| ensures r[i].article.viewCount >= all[j].article.viewCount {
      assert r[i] == all[i];
      assert Before(ByViewCount, all[i], all[j]);
    }
  }

  /** `query.toLowerCase().split(" ")`. */
  function SearchTerms(query: string): (terms: seq<string>)
    ensures |terms| >= 1 && Join(terms, ' ') == Lower(query)
    ensures forall k :: 0 <= k < |terms| ==> ' ' !in terms[k]
    ensures forall k :: 0 <= k < |terms| ==> Lower(terms[k]) == terms[k]
  {
    var l := Lower(query);
    assert forall k :: 0 <= k < |Split(l, ' ')| ==> Lower(Split(l, ' ')[k]) == Split(l, ' ')[k] by {
      LowerIdempotent(query);
      SplitPieceChars(l, ' ');
      forall k | 0 <= k < |Split(l, ' ')| ensures Lower(Split(l, ' ')[k]) == Split(l, ' ')[k] {
        var t := Split(l, ' ')[k];
        forall i | 0 <= i < |t| ensures LowerChar(t[i]) == t[i] {
          assert t[i] in t;
          assert t[i] in l;
          var j :| 0 <= j < |l| && l[j] == t[i];
          assert Lower(l)[j] == LowerChar(l[j]);
        }
      }
    }
    JoinSplit(Lower(query), ' ');
    Split(Lower(query), ' ')
  }

  /**
   * searchArticles: the stored articles whose lower-cased title or content
   * contains some search term and whose category resolves, newest first.
   */
  function SearchArticles(s: Store, query: string): (r: seq<ArticleWithCategory>)
    ensures forall x :: x in r <==>
      && x.article in s.ArticleList()
      && MatchesAny(SearchTerms(query), x.article)
      && Resolves(s, x)
    ensures s.Valid() ==> Ranked(ByPublishedAt, r)
  {
    Listing(s, MatchingAny(SearchTerms(query)), ByPublishedAt)
  }

  /** A query with an empty search term matches every article: it returns getAllArticles. */
  lemma SearchWithEmptyTerm(s: Store, query: string)
    requires "" in SearchTerms(query)
    ensures SearchArticles(s, query) == GetAllArticles(s)
  {
    var list := s.ArticleList();
    forall a | a in list ensures Passes(MatchingAny(SearchTerms(query)), a) <==> Passes(Everything, a) {
      IncludesEmpty(Lower(a.title));
    }
    SelectAgree(MatchingAny(SearchTerms(query)), Everything, list);
  }

  /** The empty query returns every article whose category resolves (`"".split(" ")` is `[""]`). */
  lemma SearchEmptyQuery(s: Store)
    ensures SearchArticles(s, "") == GetAllArticles(s)
  {
    assert SearchTerms("") == [""];
    SearchWithEmptyTerm(s, "");
  }

  /** A query with two spaces in a row returns every article whose category resolves. */
  lemma SearchDoubledSpace(s: Store, before: string, after: string)
    ensures SearchArticles(s, before + "  " + after) == GetAllArticles(s)
  {
    LowerConcat(before + "  ", after);
    LowerConcat(before, "  ");
    assert Lower("  ") == [' ', ' '];
    SplitDoubledSeparator(Lower(before), ' ', Lower(after));
    assert Lower(before + "  " + after) == Lower(before) + [' ', ' '] + Lower(after);
    SearchWithEmptyTerm(s, before + "  " + after);
  }

  /** A query ending in a space returns every article whose category resolves. */
  lemma SearchTrailingSpace(s: Store, query: string)
    ensures SearchArticles(s, query + " ") == GetAllArticles(s)
  {
    LowerConcat(query, " ");
    assert Lower(" ") == [' '];
    SplitTrailingSeparator(Lower(query), ' ');
    var terms := SearchTerms(query + " ");
    assert terms[|terms| - 1] == "";
    SearchWithEmptyTerm(s, query + " ");
  }

  /**
   * After createArticle with a slug no stored article has, getArticleBySlug
   * finds the new article, with its category attached when it resolves.
   */
  lemma CreatedArticleFoundBySlug(s: Store, insert: InsertArticle, now: int)
    requires s.Valid()
    requires forall a :: a in s.ArticleList() ==> a.slug != insert.slug
    ensures var (t, a) := AddArticle(s, insert, now);
      GetArticleBySlug(t, insert.slug) == Some(AttachCategory(t, a))
  {
    var (t, a) := AddArticle(s, insert, now);
    var r := GetArticleBySlug(t, insert.slug);
    assert t.ArticleList() == s.ArticleList() + [a];
    assert a in t.ArticleList();
    var i :| 0 <= i < |t.ArticleList()| && t.ArticleList()[i] == r.value.article
             && forall j :: 0 <= j < i ==> t.ArticleList()[j].slug != insert.slug;
  }

  /** After createArticle whose category resolves, getAllArticles includes the new article. */
  lemma CreatedArticleListed(s: Store, insert: InsertArticle, now: int)
    requires s.Valid()
    requires insert.categoryId in s.categories
    ensures var (t, a) := AddArticle(s, insert, now);
      ArticleWithCategory(a, s.categories[insert.categoryId]) in GetAllArticles(t)
  {
    var (t, a) := AddArticle(s, insert, now);
    assert a in t.ArticleList();
  }

  /**
   * On a fresh store, an article created in one of the seven seeded
   * categories gets id 1 and view count 0, is found by its slug with its
   * category attached, and one view increment returns it with view count 1.
   */
  lemma FreshStoreScenario(insert: InsertArticle, now: int)
    requires 1 <= insert.categoryId <= 7
    ensures var (t, a) := AddArticle(Seeded(), insert, now);
      && a.id == 1 && a.viewCount == 0
      && insert.categoryId in t.categories
      && GetArticleBySlug(t, insert.slug) == Some(Attached(a, Some(t.categories[insert.categoryId])))
      && AddView(t, a.id).Some? && AddView(t, a.id).value.1 == a.(viewCount := 1)
  {
    CreatedInEmptyTable(Seeded(), insert, now);
  }

  /** The same for any valid store with no articles yet and the article counter at 1. */
  lemma CreatedInEmptyTable(s: Store, insert: InsertArticle, now: int)
    requires s.Valid() && s.articles == map[] && s.currentArticleId == 1
    requires insert.categoryId in s.categories
    ensures var (t, a) := AddArticle(s, insert, now);
      && a.id == 1 && a.viewCount == 0
      && insert.categoryId in t.categories
      && GetArticleBySlug(t, insert.slug) == Some(Attached(a, Some(t.categories[insert.categoryId])))
      && AddView(t, a.id).Some? && AddView(t, a.id).value.1 == a.(viewCount := 1)
  {
    assert s.ArticleList() == [];
    CreatedArticleFoundBySlug(s, insert, now);
  }
}
