/**
 * Articles and the two sequence operations the in-memory store is built on:
 * `Array.prototype.find` with an id test, and `Array.prototype.filter` with
 * the negated id test.
 */
module ArticleList {
  import opened Js

  /** One stored article. `title`, `author` and `content` are kept as the body gave them. */
  datatype Article = Article(id: int, title: Value, author: Value, date: string, content: Value)

  /** The id test `a.id === parseInt(req.params.id)`: NaN equals no id. */
  predicate Matches(a: Article, target: Option<int>) {
    target.Some? && a.id == target.value
  }

  /** `s[i]` is the first element of `s` that matches `target`. */
  ghost predicate IsFirstMatch(s: seq<Article>, i: int, target: Option<int>) {
    0 <= i < |s| && Matches(s[i], target) && forall j :: 0 <= j < i ==> !Matches(s[j], target)
  }

  /** The article the store is seeded with at start-up, dated `startup`. */
  function Seed(startup: string): (a: Article)
    ensures a.id == 1 && a.date == startup
    ensures a.title == Str("Welcome to Tech News Hub") && a.author == Str("Isaac")
    ensures a.content.Str? && Truthy(a.content)
  {
    Article(1, Str("Welcome to Tech News Hub"), Str("Isaac"), startup,
            Str("Your source for the latest tech news and insights."))
  }

  /**
   * The record built by a create request: id and date come from the clock,
   * title and author are taken without validation, and a falsy content
   * becomes the empty string.
   */
  function NewArticle(now: int, isoNow: string, title: Value, author: Value, content: Value): (a: Article)
    ensures a.id == now && a.date == isoNow
    ensures a.title == title && a.author == author
    ensures Truthy(content) ==> a.content == content
    ensures !Truthy(content) ==> a.content == Str("")
    ensures a.content != Undefined && a.content != Null
  {
    Article(now, title, author, isoNow, Or(content, Str("")))
  }

  /** `s.find(a => a.id === target)`: the first matching element, if any. */
  function Find(s: seq<Article>, target: Option<int>): (r: Option<Article>)
    ensures r.None? <==> forall i :: 0 <= i < |s| ==> !Matches(s[i], target)
    ensures r.Some? ==> exists i :: IsFirstMatch(s, i, target) && s[i] == r.value
  {
    if s == [] then None
    else if Matches(s[0], target) then
      assert IsFirstMatch(s, 0, target);
      Some(s[0])
    else
      var r := Find(s[1..], target);
      assert r.Some? ==> exists i :: IsFirstMatch(s, i, target) && s[i] == r.value by {
        if r.Some? {
          var i :| IsFirstMatch(s[1..], i, target) && s[1..][i] == r.value;
          assert IsFirstMatch(s, i + 1, target);
        }
      }
      r
  }

  /** `s.filter(a => a.id !== target)`: every element that does not match, in order. */
  function Without(s: seq<Article>, target: Option<int>): (r: seq<Article>)
    ensures |r| <= |s|
    ensures forall a :: a in r <==> a in s && !Matches(a, target)
  {
    if s == [] then []
    else if Matches(s[0], target) then Without(s[1..], target)
    else [s[0]] + Without(s[1..], target)
  }

  /** Filtering distributes over concatenation, so relative order is kept. */
  lemma {:induction false} WithoutAppend(s: seq<Article>, t: seq<Article>, target: Option<int>)
    ensures Without(s + t, target) == Without(s, target) + Without(t, target)
  {
    if s == [] {
      assert s + t == t;
    } else {
      assert (s + t)[1..] == s[1..] + t;
      WithoutAppend(s[1..], t, target);
    }
  }

  /**
   * The length test of the delete handler: the filtered sequence is as long
   * as the original exactly when no element matched, and then it is the
   * original itself.
   */
  lemma {:induction false} WithoutLength(s: seq<Article>, target: Option<int>)
    ensures |Without(s, target)| == |s| <==> forall i :: 0 <= i < |s| ==> !Matches(s[i], target)
    ensures (forall i :: 0 <= i < |s| ==> !Matches(s[i], target)) ==> Without(s, target) == s
  {
    if s != [] {
      WithoutLength(s[1..], target);
      if !Matches(s[0], target) {
        assert forall i :: 1 <= i < |s| ==> s[i] == s[1..][i - 1];
        assert (forall i :: 0 <= i < |s| ==> !Matches(s[i], target))
           <==> (forall i :: 0 <= i < |s[1..]| ==> !Matches(s[1..][i], target));
        assert [s[0]] + s[1..] == s;
      }
    }
  }

  /** NaN matches nothing, so filtering by it keeps every element. */
  lemma {:induction false} WithoutNaN(s: seq<Article>)
    ensures Without(s, None) == s
  {
    WithoutLength(s, None);
  }

  /** Filtering twice by the same id removes nothing more. */
  lemma {:induction false} WithoutIdempotent(s: seq<Article>, target: Option<int>)
    ensures Without(Without(s, target), target) == Without(s, target)
  {
    WithoutLength(Without(s, target), target);
  }

  /**
   * After an article `a` is appended, a lookup by its id finds an earlier
   * article with the same id when there is one, and `a` itself otherwise.
   */
  lemma {:induction false} FindAppend(s: seq<Article>, a: Article)
    ensures Find(s + [a], Some(a.id)) == if Find(s, Some(a.id)).Some? then Find(s, Some(a.id)) else Some(a)
  {
    if s != [] {
      assert (s + [a])[1..] == s[1..] + [a];
      FindAppend(s[1..], a);
    }
  }

  /** Removing one id leaves lookups by every other id as they were. */
  lemma {:induction false} FindWithoutOther(s: seq<Article>, target: Option<int>, other: Option<int>)
    requires other != target
    ensures Find(Without(s, target), other) == Find(s, other)
  {
    if s != [] {
      FindWithoutOther(s[1..], target, other);
      if Matches(s[0], target) {
        assert !Matches(s[0], other);
      }
    }
  }
}
