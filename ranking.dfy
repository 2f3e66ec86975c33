/**
 * The orderings the list queries apply. Each query sorts with a comparator
 * `(a, b) => key(b) - key(a)`, i.e. by a key in non-increasing order, and
 * `Array.prototype.sort` is stable, so articles with equal keys keep the
 * order they had before sorting. Since that order is ascending id order,
 * the sorted list is ranked by key descending, then id ascending.
 */
module Ranking {
  import opened Schema

  /** The sort keys: publication time (most queries) and view count (popular). */
  datatype SortKey = ByPublishedAt | ByViewCount

  function Key(key: SortKey, x: ArticleWithCategory): int
  {
    match key
    case ByPublishedAt => x.article.publishedAt
    case ByViewCount => x.article.viewCount
  }

  /** `x` comes before `y`: a larger key, or an equal key and a smaller id. */
  predicate Before(key: SortKey, x: ArticleWithCategory, y: ArticleWithCategory)
  {
    Key(key, x) > Key(key, y) || (Key(key, x) == Key(key, y) && x.article.id < y.article.id)
  }

  /** Every earlier element comes before every later one. */
  ghost predicate Ranked(key: SortKey, s: seq<ArticleWithCategory>)
  {
    forall i, j :: 0 <= i < j < |s| ==> Before(key, s[i], s[j])
  }

  /** The key never increases along `s`. */
  ghost predicate NonIncreasing(key: SortKey, s: seq<ArticleWithCategory>)
  {
    forall i, j :: 0 <= i < j < |s| ==> Key(key, s[i]) >= Key(key, s[j])
  }

  /** A ranked list is non-increasing in its key. */
  lemma RankedIsNonIncreasing(key: SortKey, s: seq<ArticleWithCategory>)
    requires Ranked(key, s)
    ensures NonIncreasing(key, s)
  {
  }

  /** Every element of `s` has a larger id than `x`. */
  ghost predicate IdBelowAll(x: ArticleWithCategory, s: seq<ArticleWithCategory>)
  {
    forall y :: y in s ==> x.article.id < y.article.id
  }

  /** Putting in front of a ranked list an element that comes before each of its elements keeps it ranked. */
  lemma PrependRanked(key: SortKey, x: ArticleWithCategory, s: seq<ArticleWithCategory>)
    requires Ranked(key, s)
    requires forall y :: y in s ==> Before(key, x, y)
    ensures Ranked(key, [x] + s)
  {
    var r := [x] + s;
    forall i, j | 0 <= i < j < |r| ensures Before(key, r[i], r[j]) {
      assert r[j] == s[j - 1];
      if i == 0 {
        assert s[j - 1] in s;
      } else {
        assert r[i] == s[i - 1];
      }
    }
  }

  /** An element whose key is at least the head's, and whose id is below all, comes before every element. */
  lemma FrontBeforeAll(key: SortKey, x: ArticleWithCategory, s: seq<ArticleWithCategory>)
    requires Ranked(key, s) && IdBelowAll(x, s)
    requires |s| > 0 && Key(key, s[0]) <= Key(key, x)
    ensures forall y :: y in s ==> Before(key, x, y)
  {
    forall y | y in s ensures Before(key, x, y) {
      var j :| 0 <= j < |s| && s[j] == y;
      if j > 0 {
        assert Before(key, s[0], s[j]);
      }
    }
  }

  /** The head of a ranked list comes before the rest of it and before any element with a smaller key. */
  lemma HeadBeforeAll(key: SortKey, x: ArticleWithCategory, s: seq<ArticleWithCategory>, rest: seq<ArticleWithCategory>)
    requires Ranked(key, s) && |s| > 0 && Key(key, s[0]) > Key(key, x)
    requires multiset(rest) == multiset(s[1..]) + multiset{x}
    ensures forall y :: y in rest ==> Before(key, s[0], y)
  {
    forall y | y in rest ensures Before(key, s[0], y) {
      assert y in multiset(rest);
      if y != x {
        assert y in multiset(s[1..]);
        var k :| 0 <= k < |s[1..]| && s[1..][k] == y;
        assert s[k + 1] == y;
      }
    }
  }

  /**
   * Inserts `x` in front of the first element whose key is not larger:
   * `x` goes after every element with a larger key and before every
   * element with an equal key.
   */
  function Insert(key: SortKey, x: ArticleWithCategory, s: seq<ArticleWithCategory>): (r: seq<ArticleWithCategory>)
    ensures multiset(r) == multiset(s) + multiset{x}
    ensures Ranked(key, s) && IdBelowAll(x, s) ==> Ranked(key, r)
  {
    if |s| == 0 then
      [x]
    else if Key(key, s[0]) <= Key(key, x) then
      assert Ranked(key, s) && IdBelowAll(x, s) ==> Ranked(key, [x] + s) by {
        if Ranked(key, s) && IdBelowAll(x, s) {
          FrontBeforeAll(key, x, s);
          PrependRanked(key, x, s);
        }
      }
      [x] + s
    else
      assert s == [s[0]] + s[1..];
      var rest := Insert(key, x, s[1..]);
      assert Ranked(key, s) && IdBelowAll(x, s) ==> Ranked(key, [s[0]] + rest) by {
        if Ranked(key, s) && IdBelowAll(x, s) {
          assert IdBelowAll(x, s[1..]);
          HeadBeforeAll(key, x, s, rest);
          PrependRanked(key, s[0], rest);
        }
      }
      [s[0]] + rest
  }

  /**
   * In a list in id order, the tail is in id order and the head's id is
   * below that of every element of any permutation of the tail.
   */
  lemma HeadIdBelowAll(s: seq<ArticleWithCategory>, rest: seq<ArticleWithCategory>)
    requires IdsIncrease(ArticlesOf(s)) && |s| > 0
    requires multiset(rest) == multiset(s[1..])
    ensures IdsIncrease(ArticlesOf(s[1..]))
    ensures IdBelowAll(s[0], rest)
  {
    assert ArticlesOf(s[1..]) == ArticlesOf(s)[1..];
    forall y | y in rest ensures s[0].article.id < y.article.id {
      assert y in multiset(s[1..]);
      var k :| 0 <= k < |s[1..]| && s[1..][k] == y;
      assert s[k + 1] == y;
    }
  }

  /**
   * Stable sort by `key`, non-increasing: insertion sort, inserting each
   * element in front of the later elements with the same key.
   */
  function SortDesc(key: SortKey, s: seq<ArticleWithCategory>): (r: seq<ArticleWithCategory>)
    ensures multiset(r) == multiset(s)
    ensures IdsIncrease(ArticlesOf(s)) ==> Ranked(key, r)
  {
    if |s| == 0 then
      []
    else
      var rest := SortDesc(key, s[1..]);
      var r := Insert(key, s[0], rest);
      assert multiset(r) == multiset(s) && (IdsIncrease(ArticlesOf(s)) ==> Ranked(key, r)) by {
        InsertHead(key, s, rest);
      }
      r
  }

  /** Inserting the head into a sorted tail sorts the whole list. */
  lemma InsertHead(key: SortKey, s: seq<ArticleWithCategory>, rest: seq<ArticleWithCategory>)
    requires |s| > 0 && multiset(rest) == multiset(s[1..])
    requires IdsIncrease(ArticlesOf(s[1..])) ==> Ranked(key, rest)
    ensures multiset(Insert(key, s[0], rest)) == multiset(s)
    ensures IdsIncrease(ArticlesOf(s)) ==> Ranked(key, Insert(key, s[0], rest))
  {
    assert s == [s[0]] + s[1..];
    if IdsIncrease(ArticlesOf(s)) {
      HeadIdBelowAll(s, rest);
    }
  }

  /** `x` before `y` and `y` before `x` cannot both hold. */
  lemma BeforeAsymmetric(key: SortKey, x: ArticleWithCategory, y: ArticleWithCategory)
    ensures !(Before(key, x, y) && Before(key, y, x))
  {
  }

  /** Two permutations of each other with the same head have tails that are permutations of each other. */
  lemma TailsPermuted(t: seq<ArticleWithCategory>, u: seq<ArticleWithCategory>)
    requires |t| > 0 && |u| > 0 && t[0] == u[0]
    requires multiset(t) == multiset(u)
    ensures multiset(t[1..]) == multiset(u[1..])
  {
    assert t == [t[0]] + t[1..] && u == [u[0]] + u[1..];
    assert multiset(t) == multiset{t[0]} + multiset(t[1..]);
    assert multiset(u) == multiset{u[0]} + multiset(u[1..]);
    forall z ensures multiset(t[1..])[z] == multiset(u[1..])[z] {
      assert multiset(t)[z] == multiset{t[0]}[z] + multiset(t[1..])[z];
      assert multiset(u)[z] == multiset{u[0]}[z] + multiset(u[1..])[z];
    }
  }

  /** Two ranked permutations of each other, not empty, start with the same element. */
  lemma RankedSameHead(key: SortKey, t: seq<ArticleWithCategory>, u: seq<ArticleWithCategory>)
    requires |t| > 0 && multiset(t) == multiset(u)
    requires Ranked(key, t) && Ranked(key, u)
    ensures |u| > 0 && t[0] == u[0]
  {
    assert t[0] in multiset(u);
    var j :| 0 <= j < |u| && u[j] == t[0];
    assert u[0] in multiset(t);
    var i :| 0 <= i < |t| && t[i] == u[0];
    if j != 0 && i != 0 {
      BeforeAsymmetric(key, u[0], t[0]);
    }
  }

  /**
   * Two ranked permutations of the same list are equal: whatever stable sort
   * the runtime uses, its result on a list in id order is SortDesc's.
   */
  lemma {:induction false} RankedUnique(key: SortKey, t: seq<ArticleWithCategory>, u: seq<ArticleWithCategory>)
    requires multiset(t) == multiset(u)
    requires Ranked(key, t) && Ranked(key, u)
    ensures t == u
  {
    if |t| == 0 {
      assert |u| == |multiset(u)| == 0;
    } else {
      RankedSameHead(key, t, u);
      TailsPermuted(t, u);
      RankedUnique(key, t[1..], u[1..]);
      assert t == [t[0]] + t[1..] && u == [u[0]] + u[1..];
    }
  }

  /** Sorting a list in id order gives the one ranked permutation of it. */
  lemma SortDescIsTheRankedPermutation(key: SortKey, s: seq<ArticleWithCategory>, t: seq<ArticleWithCategory>)
    requires IdsIncrease(ArticlesOf(s))
    requires multiset(t) == multiset(s) && Ranked(key, t)
    ensures SortDesc(key, s) == t
  {
    RankedUnique(key, SortDesc(key, s), t);
  }
}
