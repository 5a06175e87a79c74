/**
 * The in-memory article service: one mutable list of articles, seeded with a
 * welcome article at start-up, and the list / get / create / delete handlers
 * that act on it. HTTP outcomes are replies, not status codes.
 */
module ArticleStore {
  import opened Js
  import opened ArticleList

  /** A handler's outcome: a 200/201 body, or the 404 "Article not found" error. */
  datatype Reply<+T> = Ok(value: T) | NotFound

  /** The confirmation body of a successful delete. */
  const DeletedMessage: string := "Article deleted successfully"

  class Store {
    /** The module-level `articles` list, in insertion order. Ids need not be unique. */
    var articles: seq<Article>

    /** Process start-up: the list holds only the seed article. */
    constructor (startup: string)
      ensures articles == [Seed(startup)]
      ensures |articles| == 1 && articles[0].id == 1
    {
      articles := [Seed(startup)];
    }

    /** GET /api/articles: the whole list, as it stands. */
    function List(): (r: seq<Article>)
      reads this
      ensures r == articles
    {
      articles
    }

    /** GET /api/articles/:id, with `target` the parsed path id (None for NaN). */
    function Get(target: Option<int>): (r: Reply<Article>)
      reads this
      ensures r.NotFound? <==> forall i :: 0 <= i < |articles| ==> !Matches(articles[i], target)
      ensures r.Ok? ==> exists i :: IsFirstMatch(articles, i, target) && articles[i] == r.value
      ensures target.None? ==> r.NotFound?
    {
      match Find(articles, target)
      case Some(a) => Ok(a)
      case None => NotFound
    }

    /**
     * POST /api/articles: `now` is `Date.now()` and `isoNow` the ISO time
     * string read just after it. The new article goes to the end of the list
     * and is returned.
     */
    method Create(now: int, isoNow: string, title: Value, author: Value, content: Value)
      returns (created: Article)
      modifies this
      ensures created == NewArticle(now, isoNow, title, author, content)
      ensures articles == old(articles) + [created]
      ensures Get(Some(now)) == if old(Get(Some(now))).Ok? then old(Get(Some(now))) else Ok(created)
    {
      created := NewArticle(now, isoNow, title, author, content);
      FindAppend(articles, created);
      articles := articles + [created];
    }

    /**
     * DELETE /api/articles/:id: keep every article whose id differs from
     * `target`, and answer NotFound when the length did not change.
     */
    method Delete(target: Option<int>) returns (r: Reply<string>)
      modifies this
      ensures articles == Without(old(articles), target)
      ensures r.NotFound? <==> forall i :: 0 <= i < |old(articles)| ==> !Matches(old(articles)[i], target)
      ensures r.NotFound? ==> articles == old(articles)
      ensures r.Ok? ==> r.value == DeletedMessage && |articles| < |old(articles)|
      ensures Get(target).NotFound?
      ensures forall other :: other != target ==> Find(articles, other) == Find(old(articles), other)
    {
      var initialLength := |articles|;
      WithoutLength(articles, target);
      forall other | other != target
        ensures Find(Without(articles, target), other) == Find(articles, other)
      {
        FindWithoutOther(articles, target, other);
      }
      articles := Without(articles, target);
      if |articles| == initialLength {
        r := NotFound;
      } else {
        r := Ok(DeletedMessage);
      }
    }
  }
}
