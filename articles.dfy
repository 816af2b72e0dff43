/**
 * The article collection shared by every variant of the site: the record read
 * from `data/articles.json`, the outcome of fetching that file, and the
 * first-match lookup by `id` (`Array.prototype.find`).
 */
module Articles {
  import opened Wrappers
  import Text

  /** One record of `data/articles.json`. */
  datatype Article = Article(
    id: string,
    title: string,
    tag: string,
    icon: string,
    date: string,
    excerpt: string,
    content: string)

  /**
   * What `fetch('data/articles.json')` produced: a rejected promise, or a
   * response with its `ok` flag and what `response.json()` gave (`None` when
   * the body did not parse as an array of articles).
   */
  datatype Response = Response(ok: bool, body: Option<seq<Article>>)
  datatype Fetch = Rejected | Responded(response: Response)

  /**
   * The articles a script goes on with, or `None` when its promise chain
   * throws. `checksOk` says whether the script throws on a response whose
   * `ok` is false before reading the body.
   */
  function Payload(fetch: Fetch, checksOk: bool): (r: Option<seq<Article>>)
    ensures r.Some? <==> fetch.Responded? && fetch.response.body.Some? && (checksOk ==> fetch.response.ok)
    ensures r.Some? ==> r.value == fetch.response.body.value
  {
    match fetch
    case Rejected => None
    case Responded(response) =>
      if checksOk && !response.ok then None else response.body
  }

  /** The two readings agree on a successful response and differ on a parsed non-ok one. */
  lemma PayloadOkCheck(fetch: Fetch)
    ensures fetch.Responded? && fetch.response.ok ==> Payload(fetch, true) == Payload(fetch, false)
    ensures fetch.Responded? && !fetch.response.ok && fetch.response.body.Some? ==>
              Payload(fetch, true).None? && Payload(fetch, false).Some?
  {
  }

  /** The `id` query parameter selects an article only when present and non-empty (`!articleId` is true for `null` and `""`). */
  predicate HasId(query: Option<string>) {
    query.Some? && query.value != ""
  }

  /** The position of the first article whose `id` equals `id`. */
  function FindIndex(articles: seq<Article>, id: string): (r: Option<nat>)
    ensures r.Some? ==> r.value < |articles| && articles[r.value].id == id
    ensures r.Some? ==> forall j :: 0 <= j < r.value ==> articles[j].id != id
    ensures r.None? ==> forall j :: 0 <= j < |articles| ==> articles[j].id != id
  {
    if |articles| == 0 then None
    else if articles[0].id == id then Some(0)
    else
      match FindIndex(articles[1..], id)
      case None => None
      case Some(k) => Some(k + 1)
  }

  /** `articles.find(a => a.id === id)`: the first article with that id, if any. */
  function Find(articles: seq<Article>, id: string): (r: Option<Article>)
    ensures r.Some? <==> exists j :: 0 <= j < |articles| && articles[j].id == id
    ensures r.Some? ==> exists i :: 0 <= i < |articles| && articles[i] == r.value && r.value.id == id &&
                                   forall j :: 0 <= j < i ==> articles[j].id != id
  {
    match FindIndex(articles, id)
    case None => None
    case Some(i) => Some(articles[i])
  }

  /** No two articles share an id. */
  predicate UniqueIds(articles: seq<Article>) {
    forall i, j :: 0 <= i < j < |articles| ==> articles[i].id != articles[j].id
  }

  /** With unique ids, looking up an article's own id finds that article. */
  lemma FindOwnId(articles: seq<Article>, k: nat)
    requires UniqueIds(articles) && k < |articles|
    ensures Find(articles, articles[k].id) == Some(articles[k])
  {
  }

  /** Lookup depends only on the articles before the first match: what follows it is never seen. */
  lemma {:induction false} FindIgnoresRest(front: seq<Article>, a: Article, rest: seq<Article>)
    requires forall j :: 0 <= j < |front| ==> front[j].id != a.id
    ensures Find(front + [a] + rest, a.id) == Some(a)
  {
    var s := front + [a] + rest;
    assert s[|front|] == a;
  }

  /** How a page that looks an article up by its query-string `id` ends. */
  datatype Outcome = NoId | NotFound | FetchError | Found(article: Article)

  /**
   * The outcome for the query-string `id` and the articles the page's fetch
   * gave (`None` when it threw): no usable id, no articles, no article with
   * that id, or the first article with it.
   */
  function SelectOutcome(query: Option<string>, payload: Option<seq<Article>>): (o: Outcome)
    ensures o == NoId <==> !HasId(query)
    ensures o == FetchError <==> HasId(query) && payload.None?
    ensures o == NotFound <==> HasId(query) && payload.Some? &&
                               forall j :: 0 <= j < |payload.value| ==> payload.value[j].id != query.value
    ensures o.Found? ==> HasId(query) && payload.Some? && o.article.id == query.value &&
                         exists i :: 0 <= i < |payload.value| && payload.value[i] == o.article &&
                                     forall j :: 0 <= j < i ==> payload.value[j].id != query.value
  {
    if !HasId(query) then NoId
    else
      match payload
      case None => FetchError
      case Some(articles) =>
        match Find(articles, query.value)
        case None => NotFound
        case Some(a) => Found(a)
  }

  /** With unique ids, the page for an article's own (non-empty) id finds that article. */
  lemma OwnIdIsFound(articles: seq<Article>, k: nat)
    requires UniqueIds(articles) && k < |articles| && articles[k].id != ""
    ensures SelectOutcome(Some(articles[k].id), Some(articles)) == Found(articles[k])
  {
    FindOwnId(articles, k);
  }

  /** The strings of `ps`, each inside a `<p>` element, one after the other. */
  function Wrapped(ps: seq<string>): string {
    if |ps| == 0 then "" else "<p>" + ps[0] + "</p>" + Wrapped(ps[1..])
  }

  /** `<i class="${icon}"></i> ${tag}`: the tag line of an article page, carrying its icon and its tag. */
  function IconLabel(icon: string, tag: string): (h: string)
    ensures Text.Includes(h, icon) && Text.Includes(h, tag)
  {
    var front, back := "<i class=\"", "\"></i> ";
    var h := front + icon + back + tag;
    Text.IncludesMiddle(front, icon, back + tag);
    assert front + icon + (back + tag) == h;
    Text.IncludesMiddle(front + icon + back, tag, "");
    assert front + icon + back + tag + "" == h;
    h
  }
}
