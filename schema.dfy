/**
 * Record shapes of the content store: users, categories and articles, the
 * payloads their create operations accept, and an article joined with its
 * category. Timestamps are integer milliseconds since the epoch.
 */
module Schema {

  datatype Option<+T> = None | Some(value: T)

  datatype User = User(id: int, username: string, password: string)

  /** The payload of createUser: a user without its id. */
  datatype InsertUser = InsertUser(username: string, password: string)

  datatype Category = Category(id: int, name: string, slug: string)

  /** The payload of createCategory: a category without its id. */
  datatype InsertCategory = InsertCategory(name: string, slug: string)

  datatype Article = Article(
    id: int,
    title: string,
    slug: string,
    content: string,
    excerpt: string,
    imageUrl: string,
    author: string,
    categoryId: int,
    isFeatured: bool,
    viewCount: int,
    publishedAt: int,
    createdAt: int)

  /** The payload of createArticle: an article without id, viewCount and createdAt. */
  datatype InsertArticle = InsertArticle(
    title: string,
    slug: string,
    content: string,
    excerpt: string,
    imageUrl: string,
    author: string,
    categoryId: int,
    isFeatured: bool,
    publishedAt: int)

  /** An article whose category was found: the list queries return these. */
  datatype ArticleWithCategory = ArticleWithCategory(article: Article, category: Category)

  /** Article ids strictly increase along `s`: the order the tables list articles in. */
  ghost predicate IdsIncrease(s: seq<Article>)
  {
    forall i, j :: 0 <= i < j < |s| ==> s[i].id < s[j].id
  }

  /** The articles of a list of entries, in order. */
  function ArticlesOf(s: seq<ArticleWithCategory>): (r: seq<Article>)
    ensures |r| == |s| && forall i :: 0 <= i < |s| ==> r[i] == s[i].article
  {
    seq(|s|, i requires 0 <= i < |s| => s[i].article)
  }

  /** Putting an article with a smaller id in front keeps ids increasing. */
  lemma PrependIdsIncrease(a: Article, rest: seq<Article>)
    requires IdsIncrease(rest) && forall b :: b in rest ==> a.id < b.id
    ensures IdsIncrease([a] + rest)
  {
    forall i, j | 0 <= i < j < |rest| + 1 ensures ([a] + rest)[i].id < ([a] + rest)[j].id {
      if i == 0 {
        assert ([a] + rest)[j] == rest[j - 1];
        assert rest[j - 1] in rest;
      }
    }
  }

  /**
   * The result of attaching a category to an article: the category is absent
   * when the article's categoryId names no stored category.
   */
  datatype Attached = Attached(article: Article, category: Option<Category>)

  /** The user stored under `id`, as createUser builds it. */
  function NewUser(id: int, insert: InsertUser): (u: User)
    ensures u.id == id
    ensures InsertUser(u.username, u.password) == insert
  {
    User(id, insert.username, insert.password)
  }

  /** The category stored under `id`, as createCategory builds it. */
  function NewCategory(id: int, insert: InsertCategory): (c: Category)
    ensures c.id == id
    ensures InsertCategory(c.name, c.slug) == insert
  {
    Category(id, insert.name, insert.slug)
  }

  /** The payload fields of a stored article. */
  function Payload(a: Article): InsertArticle
  {
    InsertArticle(a.title, a.slug, a.content, a.excerpt, a.imageUrl, a.author,
                  a.categoryId, a.isFeatured, a.publishedAt)
  }

  /**
   * The article stored under `id`, as createArticle builds it: the payload
   * copied unchanged, the view count forced to zero and the creation time
   * taken from the clock reading `now`.
   */
  function NewArticle(id: int, insert: InsertArticle, now: int): (a: Article)
    ensures a.id == id && a.viewCount == 0 && a.createdAt == now
    ensures Payload(a) == insert
  {
    Article(id, insert.title, insert.slug, insert.content, insert.excerpt,
            insert.imageUrl, insert.author, insert.categoryId, insert.isFeatured,
            0, insert.publishedAt, now)
  }
}
