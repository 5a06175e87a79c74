# Tech News Hub in-memory article store, in Dafny

This project models the in-memory variant of the Tech News Hub API. The
service keeps one mutable list of articles in process memory and seeds it
with a welcome article at start-up. Four handlers act on the list:

- list (`GET /api/articles`) returns the list as it stands;
- get (`GET /api/articles/:id`) returns the first article whose id equals the
  parsed path id, or "Article not found";
- create (`POST /api/articles`) appends a new article stamped with the current
  time, with its content defaulting to the empty string;
- delete (`DELETE /api/articles/:id`) keeps every article whose id differs and
  answers "Article not found" when the list did not get shorter.

Files:

- `Js.dfy` (module `Js`): the JavaScript pieces the handlers rely on. `Option`
  stands for the result of `parseInt`, with `None` for NaN. `Value` is a value
  decoded from a JSON body, with `Undefined` for a missing field. `Truthy` is
  ToBoolean, and `Or` is the `||` operator.
- `ArticleList.dfy` (module `ArticleList`): the `Article` record, the seed
  article, the record built by create, and the two array operations the handlers
  use. `Find` models `find`, and `Without` models `filter` with the negated id
  test. The lemmas about them live here too.
- `ArticleStore.dfy` (module `ArticleStore`): class `Store`, whose field
  `articles: seq<Article>` is the module-level list. The constructor is start-up.
  `List` and `Get` are functions that read the field. `Create` and `Delete` are
  methods that change it.

The clock reads `Date.now()` and `new Date().toISOString()` are parameters. The
path id arrives already parsed, as an `Option<int>`. NaN compares unequal to
every id under `===`, so get and delete by an unparsable id both end in
NotFound and leave the list unchanged.

Ids come from the millisecond clock (index.js:54), so two creates in the same
millisecond get the same id; the model does not assume uniqueness. `Store.Create` states what a later get
returns when the new id collides with an existing one: the earlier article,
not the new one. `Store.Delete` removes every article with the id.

## Model

| member | source | states |
|---|---|---|
| `ArticleStore.Store.constructor` | index.js:12-20 | after start-up the list holds exactly one article, the seed article, with id 1 |
| `ArticleList.Seed` | index.js:13-19 | the seed article has id 1, title 'Welcome to Tech News Hub', author 'Isaac', the start-up date, and a non-empty string content |
| `ArticleStore.Store.List` | index.js:36-38 | list answers with the current list itself; as a function, it changes nothing |
| `ArticleList.Find` | index.js:42 | `find` answers None exactly when no element matches the id; otherwise it answers the element at the first matching index |
| `ArticleStore.Store.Get` | index.js:41-49 | get is NotFound if and only if no article matches the parsed id, and always for NaN; otherwise it is the first matching article in list order; it reads the list and changes nothing |
| `Js.Or` | index.js:58 | the logical-or `a or b` is one of its operands; it is `a` when `a` is truthy and `b` when `a` is falsy; it is truthy exactly when either operand is |
| `ArticleList.NewArticle` | index.js:53-59 | the created record has the clock's id and date, stores title and author exactly as given, keeps a truthy content, and turns a falsy content into '' (never undefined or null) |
| `ArticleStore.Store.Create` | index.js:52-63 | the list becomes the old list with the new record appended at the end, and the returned record is that record; a later get by the new id returns the new record, or the earlier article with that id when one exists |
| `ArticleList.FindAppend` | index.js:42 | after an append, a lookup by the appended article's id yields an earlier match when there is one, else the appended article |
| `ArticleList.Without` | index.js:68 | `filter` keeps exactly the elements whose id differs from the target, and never grows the list |
| `ArticleList.WithoutAppend` | index.js:68 | filtering distributes over concatenation, so kept elements keep their relative order |
| `ArticleList.WithoutLength` | index.js:67-70 | the filtered list is as long as the original if and only if no element matched, and in that case it equals the original |
| `ArticleList.WithoutNaN` | index.js:68 | filtering by NaN keeps the whole list |
| `ArticleList.WithoutIdempotent` | index.js:68 | a second delete of the same id removes nothing more |
| `ArticleList.FindWithoutOther` | index.js:42 | removing one id leaves lookups by every other id unchanged |
| `ArticleStore.Store.Delete` | index.js:66-75 | the list becomes the filtered list. The reply is NotFound if and only if no article matched, and then the list is unchanged. Otherwise it is the success message and the list got shorter. Afterwards get by that id is NotFound, and lookups by other ids are as before |

## Left out

- server.js, the database-backed variant: every handler there passes a
  parameterised SQL query to an external PostgreSQL pool. Ordering, id
  assignment and deletion happen inside the database.
- Express routing, CORS, JSON body parsing, `app.listen`, the root banner
  route (index.js:23-33) and console logging: framework glue and constant
  output. HTTP status codes become the `Reply` datatype (`Ok` / `NotFound`).
- The clock (`Date.now()`, `new Date().toISOString()`): both are parameters of
  `Store.constructor` and `Store.Create`, so nothing ties the id to the date or
  makes successive ids increase.
- `parseInt`'s own parsing (whitespace, radix prefixes, trailing characters):
  the handlers receive its result as an `Option<int>`.
- JSON numbers are modelled as exact reals, so IEEE-754 rounding, and ids beyond
  2^53, are not modelled. NaN cannot come from a JSON body.
- Interleaving of requests: each handler runs to completion on the single
  JavaScript thread, so each is modelled as one atomic call.
