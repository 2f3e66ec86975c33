/**
 * MemStorage: the in-memory content store. Three tables (users, categories,
 * articles), each a map from id to record, and one id counter per table.
 * Every mutating method is specified by the function of module Snapshot
 * that computes the new state from the old; every query returns the value
 * of the function of module Queries on the current state. The source's
 * `async`/`Promise` wrappers are dropped: each call completes at once.
 */
module Storage {
  import opened Schema
  import opened Snapshot
  import Queries

  /** The outcome of incrementArticleViews: the updated article, or the id that was not found. */
  datatype ViewOutcome = Updated(article: Article) | ArticleNotFound(id: int)

  class MemStorage {
    var users: map<int, User>
    var categories: map<int, Category>
    var articles: map<int, Article>
    var currentUserId: int
    var currentCategoryId: int
    var currentArticleId: int

    /** The six fields as one value. */
    function State(): Store
      reads this
    {
      Store(users, categories, articles, currentUserId, currentCategoryId, currentArticleId)
    }

    ghost predicate Valid()
      reads this
    {
      State().Valid()
    }

    /**
     * Empty tables, all three counters at 1, then the default categories
     * seeded: seven categories under ids 1..7, category counter at 8.
     */
    constructor ()
      ensures State() == Seeded()
      ensures Valid()
    {
      users := map[];
      categories := map[];
      articles := map[];
      currentUserId := 1;
      currentCategoryId := 1;
      currentArticleId := 1;
      new;
      ghost var empty := State();
      assert empty == Empty();
      SeedCategories();
      SeededFromEmpty(empty, State());
    }

    /** createCategory for each default category, in order. */
    method SeedCategories()
      modifies this
      ensures State() == AddCategories(old(State()), DefaultCategories())
      ensures old(Valid()) ==> Valid()
    {
      var defaults := DefaultCategories();
      for i := 0 to |defaults|
        invariant State() == AddCategories(old(State()), defaults[..i])
      {
        AddCategoriesStep(old(State()), defaults, i);
        var _ := CreateCategory(defaults[i]);
      }
      assert defaults[..|defaults|] == defaults;
    }

    method CreateUser(insertUser: InsertUser) returns (user: User)
      modifies this
      ensures (State(), user) == AddUser(old(State()), insertUser)
      ensures old(Valid()) ==> Valid()
    {
      var id := currentUserId;
      currentUserId := currentUserId + 1;
      user := NewUser(id, insertUser);
      users := users[id := user];
    }

    method CreateCategory(insertCategory: InsertCategory) returns (category: Category)
      modifies this
      ensures (State(), category) == AddCategory(old(State()), insertCategory)
      ensures old(Valid()) ==> Valid()
    {
      var id := currentCategoryId;
      currentCategoryId := currentCategoryId + 1;
      category := NewCategory(id, insertCategory);
      categories := categories[id := category];
    }

    /** createArticle; `now` is the clock reading that becomes createdAt. */
    method CreateArticle(insertArticle: InsertArticle, now: int) returns (article: Article)
      modifies this
      ensures (State(), article) == AddArticle(old(State()), insertArticle, now)
      ensures old(Valid()) ==> Valid()
    {
      var id := currentArticleId;
      currentArticleId := currentArticleId + 1;
      article := NewArticle(id, insertArticle, now);
      articles := articles[id := article];
    }

    /** incrementArticleViews: an unknown id is reported and changes nothing. */
    method IncrementArticleViews(id: int) returns (r: ViewOutcome)
      modifies this
      ensures AddView(old(State()), id).None? ==> r == ArticleNotFound(id) && State() == old(State())
      ensures AddView(old(State()), id).Some? ==>
        r == Updated(AddView(old(State()), id).value.1) && State() == AddView(old(State()), id).value.0
      ensures old(Valid()) ==> Valid()
    {
      if id !in articles {
        return ArticleNotFound(id);
      }
      var article := articles[id];
      var updated := article.(viewCount := article.viewCount + 1);
      articles := articles[id := updated];
      r := Updated(updated);
    }

    method GetUser(id: int) returns (r: Option<User>)
      ensures r == Queries.GetUser(State(), id)
    {
      r := Queries.GetUser(State(), id);
    }

    method GetUserByUsername(username: string) returns (r: Option<User>)
      ensures r == Queries.GetUserByUsername(State(), username)
    {
      r := Queries.GetUserByUsername(State(), username);
    }

    method GetAllCategories() returns (r: seq<Category>)
      ensures r == Queries.GetAllCategories(State())
    {
      r := Queries.GetAllCategories(State());
    }

    method GetCategoryBySlug(slug: string) returns (r: Option<Category>)
      ensures r == Queries.GetCategoryBySlug(State(), slug)
    {
      r := Queries.GetCategoryBySlug(State(), slug);
    }

    method GetAllArticles() returns (r: seq<ArticleWithCategory>)
      ensures r == Queries.GetAllArticles(State())
    {
      r := Queries.GetAllArticles(State());
    }

    method GetArticleBySlug(slug: string) returns (r: Option<Attached>)
      ensures r == Queries.GetArticleBySlug(State(), slug)
    {
      r := Queries.GetArticleBySlug(State(), slug);
    }

    method GetArticlesByCategory(categorySlug: string) returns (r: seq<ArticleWithCategory>)
      ensures r == Queries.GetArticlesByCategory(State(), categorySlug)
    {
      r := Queries.GetArticlesByCategory(State(), categorySlug);
    }

    method GetFeaturedArticles() returns (r: seq<ArticleWithCategory>)
      ensures r == Queries.GetFeaturedArticles(State())
    {
      r := Queries.GetFeaturedArticles(State());
    }

    method GetLatestArticles(limit: int := Queries.DefaultLimit) returns (r: seq<ArticleWithCategory>)
      ensures r == Queries.GetLatestArticles(State(), limit)
    {
      r := Queries.GetLatestArticles(State(), limit);
    }

    method GetPopularArticles(limit: int := Queries.DefaultLimit) returns (r: seq<ArticleWithCategory>)
      ensures r == Queries.GetPopularArticles(State(), limit)
    {
      r := Queries.GetPopularArticles(State(), limit);
    }

    method SearchArticles(query: string) returns (r: seq<ArticleWithCategory>)
      ensures r == Queries.SearchArticles(State(), query)
    {
      r := Queries.SearchArticles(State(), query);
    }
  }

  /**
   * A client of the class: on a fresh store, an article created in a seeded
   * category gets id 1 and view count 0, is found by its slug with that
   * category attached, and one view increment raises its count to 1.
   */
  method CreateThenView(insert: InsertArticle, now: int)
      returns (store: MemStorage, created: Article, found: Option<Attached>, viewed: ViewOutcome)
    requires 1 <= insert.categoryId <= 7
    ensures fresh(store) && store.Valid()
    ensures created.id == 1 && created.viewCount == 0 && Payload(created) == insert
    ensures insert.categoryId in store.categories && store.categories[insert.categoryId].id == insert.categoryId
    ensures found == Some(Attached(created, Some(store.categories[insert.categoryId])))
    ensures viewed == Updated(created.(viewCount := 1))
  {
    store := new MemStorage();
    Queries.FreshStoreScenario(insert, now);
    created := store.CreateArticle(insert, now);
    found := store.GetArticleBySlug(insert.slug);
    viewed := store.IncrementArticleViews(created.id);
  }
}
