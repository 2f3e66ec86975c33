/**
 * The state of the in-memory store as a value: the three tables and their id
 * counters, and the store's mutations as functions from state to state. The
 * class MemStorage keeps these six things in fields and each of its mutating
 * methods is specified by the function here of the same purpose.
 */
module Snapshot {
  import opened Schema
  import opened Tables

  datatype Store = Store(
    users: map<int, User>,
    categories: map<int, Category>,
    articles: map<int, Article>,
    currentUserId: int,
    currentCategoryId: int,
    currentArticleId: int)
  {
    /** `Array.from(this.users.values())`. */
    function UserList(): seq<User> { Values(users, currentUserId) }

    /** `Array.from(this.categories.values())`. */
    function CategoryList(): seq<Category> { Values(categories, currentCategoryId) }

    /** `Array.from(this.articles.values())`. */
    function ArticleList(): seq<Article> { Values(articles, currentArticleId) }

    /**
     * Every record is stored under its own id, and every id was handed out
     * by its table's counter, which starts at 1.
     */
    ghost predicate Valid()
    {
      && currentUserId >= 1 && currentCategoryId >= 1 && currentArticleId >= 1
      && KeysBelow(users, currentUserId) && KeyedBy(users, (u: User) => u.id)
      && KeysBelow(categories, currentCategoryId) && KeyedBy(categories, (c: Category) => c.id)
      && KeysBelow(articles, currentArticleId) && KeyedBy(articles, (a: Article) => a.id)
    }
  }

  /** The store the constructor starts from, before seeding: empty tables, counters at 1. */
  function Empty(): (s: Store)
    ensures s.Valid()
  {
    Store(map[], map[], map[], 1, 1, 1)
  }

  /** A stored article is listed exactly when it is stored under its id. */
  lemma ArticleListMember(s: Store, a: Article)
    requires s.Valid()
    ensures a in s.ArticleList() <==> a.id in s.articles && s.articles[a.id] == a
  {
    ValuesMember(s.articles, s.currentArticleId, a);
  }

  /** The article listing is in strictly increasing id order. */
  lemma ArticleListIdsIncrease(s: Store)
    requires s.Valid()
    ensures IdsIncrease(s.ArticleList())
  {
    ValuesIncrease(s.articles, s.currentArticleId, (a: Article) => a.id);
  }

  /**
   * createUser: the new user takes the counter's value as id and is stored
   * under it; the counter goes up by one; nothing else changes.
   */
  function AddUser(s: Store, insert: InsertUser): (r: (Store, User))
    ensures r.1 == NewUser(s.currentUserId, insert)
    ensures r.0.currentUserId == s.currentUserId + 1
    ensures r.0.users.Keys == s.users.Keys + {s.currentUserId} && r.0.users[s.currentUserId] == r.1
    ensures forall k :: k in s.users && k != s.currentUserId ==> r.0.users[k] == s.users[k]
    ensures r.0.categories == s.categories && r.0.articles == s.articles
    ensures r.0.currentCategoryId == s.currentCategoryId && r.0.currentArticleId == s.currentArticleId
    ensures s.Valid() ==> r.0.Valid() && s.currentUserId !in s.users
    ensures s.Valid() ==> r.0.UserList() == s.UserList() + [r.1]
  {
    var id := s.currentUserId;
    var u := NewUser(id, insert);
    var s' := s.(users := s.users[id := u], currentUserId := id + 1);
    assert s.Valid() ==> s'.UserList() == s.UserList() + [u] by {
      if s.Valid() { ValuesAppend(s.users, id, u); }
    }
    (s', u)
  }

  /**
   * createCategory: the new category takes the counter's value as id and is
   * stored under it; the counter goes up by one; nothing else changes. The
   * name and slug are not checked for uniqueness.
   */
  function AddCategory(s: Store, insert: InsertCategory): (r: (Store, Category))
    ensures r.1 == NewCategory(s.currentCategoryId, insert)
    ensures r.0.currentCategoryId == s.currentCategoryId + 1
    ensures r.0.categories.Keys == s.categories.Keys + {s.currentCategoryId}
    ensures r.0.categories[s.currentCategoryId] == r.1
    ensures forall k :: k in s.categories && k != s.currentCategoryId ==> r.0.categories[k] == s.categories[k]
    ensures r.0.users == s.users && r.0.articles == s.articles
    ensures r.0.currentUserId == s.currentUserId && r.0.currentArticleId == s.currentArticleId
    ensures s.Valid() ==> r.0.Valid() && s.currentCategoryId !in s.categories
    ensures s.Valid() ==> r.0.CategoryList() == s.CategoryList() + [r.1]
  {
    var id := s.currentCategoryId;
    var c := NewCategory(id, insert);
    var s' := s.(categories := s.categories[id := c], currentCategoryId := id + 1);
    assert s.Valid() ==> s'.CategoryList() == s.CategoryList() + [c] by {
      if s.Valid() { ValuesAppend(s.categories, id, c); }
    }
    (s', c)
  }

  /**
   * createArticle: the new article takes the counter's value as id, a view
   * count of 0, the clock reading `now` as creation time and every payload
   * field unchanged, and is stored under its id; the counter goes up by one;
   * nothing else changes. Neither the category nor the slug is checked.
   */
  function AddArticle(s: Store, insert: InsertArticle, now: int): (r: (Store, Article))
    ensures r.1.id == s.currentArticleId && r.1.viewCount == 0 && r.1.createdAt == now
    ensures Payload(r.1) == insert
    ensures r.0.currentArticleId == s.currentArticleId + 1
    ensures r.0.articles.Keys == s.articles.Keys + {s.currentArticleId}
    ensures r.0.articles[s.currentArticleId] == r.1
    ensures forall k :: k in s.articles && k != s.currentArticleId ==> r.0.articles[k] == s.articles[k]
    ensures r.0.users == s.users && r.0.categories == s.categories
    ensures r.0.currentUserId == s.currentUserId && r.0.currentCategoryId == s.currentCategoryId
    ensures s.Valid() ==> r.0.Valid() && s.currentArticleId !in s.articles
    ensures s.Valid() ==> r.0.ArticleList() == s.ArticleList() + [r.1]
  {
    var id := s.currentArticleId;
    var a := NewArticle(id, insert, now);
    var s' := s.(articles := s.articles[id := a], currentArticleId := id + 1);
    assert s.Valid() ==> s'.ArticleList() == s.ArticleList() + [a] by {
      if s.Valid() { ValuesAppend(s.articles, id, a); }
    }
    (s', a)
  }

  /**
   * incrementArticleViews: for a stored id, the article with its view count
   * one higher replaces the stored one; for an unknown id there is no new
   * state (the source throws "Article with id … not found").
   */
  function AddView(s: Store, id: int): (r: Option<(Store, Article)>)
    ensures r.None? <==> id !in s.articles
    ensures r.Some? ==> r.value.1.viewCount == s.articles[id].viewCount + 1
    ensures r.Some? ==> Payload(r.value.1) == Payload(s.articles[id])
    ensures r.Some? ==> r.value.1.id == s.articles[id].id && r.value.1.createdAt == s.articles[id].createdAt
    ensures r.Some? ==> r.value.0.articles.Keys == s.articles.Keys && r.value.0.articles[id] == r.value.1
    ensures r.Some? ==> forall k :: k in s.articles && k != id ==> r.value.0.articles[k] == s.articles[k]
    ensures r.Some? ==> r.value.0 == s.(articles := r.value.0.articles)
    ensures r.Some? && s.Valid() ==> r.value.0.Valid()
  {
    if id !in s.articles then
      None
    else
      var a := s.articles[id];
      var updated := a.(viewCount := a.viewCount + 1);
      Some((s.(articles := s.articles[id := updated]), updated))
  }

  /** The store after `k` successful view increments of article `id`. */
  function AddViews(s: Store, id: int, k: nat): Store
    requires id in s.articles
    decreases k
  {
    if k == 0 then s
    else
      var r := AddView(s, id);
      AddViews(r.value.0, id, k - 1)
  }

  /**
   * k increments add k to the article's view count and change nothing else:
   * not its other fields, not the other articles, not the other tables.
   */
  lemma {:induction false} AddViewsAddsK(s: Store, id: int, k: nat)
    requires id in s.articles
    ensures var t := AddViews(s, id, k);
      && t.articles.Keys == s.articles.Keys
      && t.articles[id] == s.articles[id].(viewCount := s.articles[id].viewCount + k)
      && (forall j :: j in s.articles && j != id ==> t.articles[j] == s.articles[j])
      && t == s.(articles := t.articles)
    decreases k
  {
    if k > 0 {
      var r := AddView(s, id);
      AddViewsAddsK(r.value.0, id, k - 1);
    }
  }

  /** The categories the constructor seeds, in order. */
  function DefaultCategories(): (r: seq<InsertCategory>)
    ensures |r| == 7
    ensures forall i, j :: 0 <= i < j < |r| ==> r[i].name != r[j].name && r[i].slug != r[j].slug
  {
    [ InsertCategory("Política", "politica"),
      InsertCategory("Economía", "economia"),
      InsertCategory("Deportes", "deportes"),
      InsertCategory("Tecnología", "tecnologia"),
      InsertCategory("Cultura", "cultura"),
      InsertCategory("Internacional", "internacional"),
      InsertCategory("Ciencia", "ciencia") ]
  }

  /** The categories createCategory builds for `inserts` when the counter starts at `first`. */
  function Numbered(first: int, inserts: seq<InsertCategory>): (r: seq<Category>)
    ensures |r| == |inserts|
    ensures forall i :: 0 <= i < |inserts| ==> r[i] == NewCategory(first + i, inserts[i])
  {
    seq(|inserts|, i requires 0 <= i < |inserts| => NewCategory(first + i, inserts[i]))
  }

  /**
   * createCategory applied to each payload in turn (the seed loop). Only the
   * category table and its counter change: the counter advances by one per
   * payload, the new categories take the ids in between, and the listing of a
   * valid store gains them at its end in payload order.
   */
  function AddCategories(s: Store, inserts: seq<InsertCategory>): (r: Store)
    ensures r.users == s.users && r.articles == s.articles
    ensures r.currentUserId == s.currentUserId && r.currentArticleId == s.currentArticleId
    ensures r.currentCategoryId == s.currentCategoryId + |inserts|
    ensures forall k :: k in r.categories <==> k in s.categories || s.currentCategoryId <= k < r.currentCategoryId
    ensures s.Valid() ==> r.Valid()
    ensures s.Valid() ==> r.CategoryList() == s.CategoryList() + Numbered(s.currentCategoryId, inserts)
  {
    if |inserts| == 0 then
      assert Numbered(s.currentCategoryId, inserts) == [];
      s
    else
      var n := |inserts| - 1;
      var prev := AddCategories(s, inserts[..n]);
      var r := AddCategory(prev, inserts[n]).0;
      assert Numbered(s.currentCategoryId, inserts) == Numbered(s.currentCategoryId, inserts[..n]) + [NewCategory(s.currentCategoryId + n, inserts[n])];
      r
  }

  /** Seeding one more payload is one more createCategory. */
  lemma AddCategoriesStep(s: Store, inserts: seq<InsertCategory>, i: int)
    requires 0 <= i < |inserts|
    ensures AddCategories(s, inserts[..i + 1]) == AddCategory(AddCategories(s, inserts[..i]), inserts[i]).0
  {
    assert inserts[..i + 1][..i] == inserts[..i];
  }

  /**
   * The store a fresh MemStorage holds: the empty store with the defaults
   * seeded. It is valid and holds no users or articles; the seven default
   * categories are stored under ids 1..7 and listed in the default order,
   * the i-th under id i+1;
   * the category counter is 8 and the other two counters 1.
   */
  function Seeded(): (s: Store)
    ensures s.Valid()
    ensures s.users == map[] && s.articles == map[]
    ensures s.currentUserId == 1 && s.currentCategoryId == 8 && s.currentArticleId == 1
    ensures forall k :: k in s.categories <==> 1 <= k <= 7
    ensures s.CategoryList() == Numbered(1, DefaultCategories())
  {
    var s := AddCategories(Empty(), DefaultCategories());
    assert Empty().CategoryList() == [];
    s
  }

  /** Seeding the empty store with the defaults gives the seeded store. */
  lemma SeededFromEmpty(empty: Store, s: Store)
    requires empty == Empty() && s == AddCategories(empty, DefaultCategories())
    ensures s == Seeded()
  {
  }
}
