/**
 * The script of the replica site (`replica-web/replica-web/js/main.js`): the navbar
 * class set on scrolling, the routing on the path name, the tag table of the
 * cards, the home page (all articles, or one picked at random), the typed-text
 * phrase cycle, and the article page.
 */
module Replica {
  import opened Wrappers
  import opened Articles
  import Text

  // ---------------------------------------------------------------------------
  // navbar

  /** The `.navbar` element's `navbar-scrolled` class. */
  class Navbar {
    var scrolled: bool

    constructor ()
      ensures !scrolled
    {
      scrolled := false;
    }

    /** The scroll listener: the class is on exactly when the page is scrolled more than 50 pixels. */
    method OnScroll(scrollY: real)
      modifies this
      ensures scrolled <==> scrollY > 50.0
    {
      if scrollY > 50.0 {
        scrolled := true;
      } else {
        scrolled := false;
      }
    }
  }

  // ---------------------------------------------------------------------------
  // routing

  /** Which branch of the `DOMContentLoaded` handler runs. */
  datatype Route = HomeRoute | ArticleRoute | NoRoute

  /**
   * The home branch for a path that contains `index.html`, is `/` or ends in
   * `/replica-web/`; otherwise the article branch for one that contains
   * `article.html`; otherwise neither.
   */
  function RouteOf(path: string): (r: Route)
    ensures r == HomeRoute <==>
              (exists i :: Text.OccursAt(path, "index.html", i)) || path == "/" || Text.EndsWith(path, "/replica-web/")
    ensures r == ArticleRoute <==> r != HomeRoute && exists i :: Text.OccursAt(path, "article.html", i)
  {
    if Text.Includes(path, "index.html") || path == "/" || Text.EndsWith(path, "/replica-web/") then HomeRoute
    else if Text.Includes(path, "article.html") then ArticleRoute
    else NoRoute
  }

  /** The home test wins over the article test. */
  lemma HomeBeforeArticle(dir: string)
    ensures RouteOf(dir + "index.html") == HomeRoute
    ensures RouteOf(dir + "article.html") != NoRoute
  {
    var p := dir + "index.html";
    assert p[|dir|..|dir| + 10] == "index.html";
    assert Text.OccursAt(p, "index.html", |dir|);
    var q := dir + "article.html";
    assert q[|dir|..|dir| + 12] == "article.html";
    assert Text.OccursAt(q, "article.html", |dir|);
  }

  // ---------------------------------------------------------------------------
  // tags

  /** The icon and CSS class of a card's tag. */
  datatype TagStyle = TagStyle(icon: string, cssClass: string)

  /** `tagConfig`. */
  const TagTable: map<string, TagStyle> := map[
    "Desarrollo" := TagStyle("fas fa-code", "tag-desarrollo"),
    "Diseño" := TagStyle("fas fa-palette", "tag-diseno"),
    "Firebase" := TagStyle("fas fa-fire", "tag-firebase"),
    "SwiftUI" := TagStyle("fab fa-swift", "tag-swiftui")]

  /** The fallback after `||`. */
  const DefaultStyle: TagStyle := TagStyle("fas fa-file-alt", "tag-desarrollo")

  /**
   * The property names every object literal inherits from `Object.prototype`
   * (section 20.1.3 of ECMA-262 and its Annex B.2.2).
   */
  const InheritedKeys: set<string> := {
    "constructor", "hasOwnProperty", "isPrototypeOf", "propertyIsEnumerable",
    "toLocaleString", "toString", "valueOf", "__proto__",
    "__defineGetter__", "__defineSetter__", "__lookupGetter__", "__lookupSetter__"}

  /**
   * `tagConfig[tag] || default` as written: an inherited name finds a
   * function or `Object.prototype`, which is truthy and has no `icon` or
   * `class`, so both render as the text `undefined`.
   */
  function TagStyleAsWritten(tag: string): (st: TagStyle)
    ensures tag in TagTable ==> st == TagTable[tag]
    ensures tag !in TagTable && tag in InheritedKeys ==> st.icon == "undefined" && st.cssClass == "undefined"
    ensures tag !in TagTable && tag !in InheritedKeys ==> st == DefaultStyle
  {
    if tag in TagTable then TagTable[tag]
    else if tag in InheritedKeys then TagStyle("undefined", "undefined")
    else DefaultStyle
  }

  /** A tag called `constructor` gets neither its own style nor the default. */
  lemma InheritedKeyEscapesDefault()
    ensures "constructor" !in TagTable
    ensures TagStyleAsWritten("constructor") != DefaultStyle
    ensures TagStyleAsWritten("constructor").icon == "undefined"
  {
  }

  /** The evident intent: the configured style of a tag in the table, the default for any other. */
  function TagStyleOf(tag: string): (st: TagStyle)
    ensures tag in TagTable ==> st == TagTable[tag]
    ensures tag !in TagTable ==> st == DefaultStyle
    ensures tag !in InheritedKeys ==> st == TagStyleAsWritten(tag)
  {
    if tag in TagTable then TagTable[tag] else DefaultStyle
  }

  /** The lookup is exact: a tag in another case gets the default. */
  lemma TagLookupIsCaseSensitive()
    ensures TagStyleOf("SwiftUI") == TagStyle("fab fa-swift", "tag-swiftui")
    ensures TagStyleOf("swiftui") == DefaultStyle
    ensures TagStyleOf("Diseno") == DefaultStyle
  {
    assert "swiftui" !in TagTable by {
      assert "swiftui"[0] != "SwiftUI"[0];
    }
    assert "Diseno" !in TagTable by {
      assert "Diseno"[4] != "Diseño"[4];
    }
  }

  // ---------------------------------------------------------------------------
  // the home page

  /** A card of the listing. */
  datatype Card = Card(href: string, icon: string, tagClass: string, tag: string, title: string, date: string, excerpt: string)

  const DetailPrefix: string := "article.html?id="

  function ArticleCard(a: Article): (c: Card)
    ensures Text.StartsWith(c.href, DetailPrefix) && c.href[|DetailPrefix|..] == a.id
    ensures TagStyle(c.icon, c.tagClass) == TagStyleOf(a.tag)
    ensures a.tag !in InheritedKeys ==> TagStyle(c.icon, c.tagClass) == TagStyleAsWritten(a.tag)
    ensures c.tag == a.tag && c.title == a.title && c.date == a.date && c.excerpt == a.excerpt
  {
    var style := TagStyleOf(a.tag);
    Card(DetailPrefix + a.id, style.icon, style.cssClass, a.tag, a.title, a.date, a.excerpt)
  }

  /** A child of `#articles-container`. */
  datatype HomeItem = StaticItem | CardItem(card: Card) | LoadFailedNotice

  /** One card per article, in order. */
  function Cards(articles: seq<Article>): (items: seq<HomeItem>)
    ensures |items| == |articles|
    ensures forall k :: 0 <= k < |articles| ==> items[k] == CardItem(ArticleCard(articles[k]))
  {
    seq(|articles|, k requires 0 <= k < |articles| => CardItem(ArticleCard(articles[k])))
  }

  /** What `getArticles` resolves to: the parsed articles, or `[]` once anything throws. */
  function FetchedArticles(fetch: Fetch): (articles: seq<Article>)
    ensures fetch.Rejected? || !fetch.response.ok || fetch.response.body.None? ==> articles == []
    ensures fetch.Responded? && fetch.response.ok && fetch.response.body.Some? ==> articles == fetch.response.body.value
  {
    Payload(fetch, true).GetOr([])
  }

  /** `Math.floor(r * n)`, the position `Math.random()`'s draw `r` picks. */
  function RandomIndex(r: real, n: nat): (i: nat)
    requires 0.0 <= r < 1.0 && n > 0
    ensures i < n
  {
    var x := r * n as real;
    assert 0.0 <= x < n as real;
    x.Floor
  }

  /** Every article can be picked: the draw `i / n` picks position `i`. */
  lemma EveryArticleSelectable(i: nat, n: nat)
    requires i < n
    ensures RandomIndex(i as real / n as real, n) == i
  {
    var r := i as real / n as real;
    assert r * n as real == i as real;
  }

  class Home {
    var items: seq<HomeItem>

    constructor (items: seq<HomeItem>)
      ensures this.items == items
    {
      this.items := items;
    }

    /** `getArticles`: the articles, with the error text put in the container when the fetch fails. */
    method GetArticles(fetch: Fetch) returns (articles: seq<Article>)
      modifies this
      ensures articles == FetchedArticles(fetch)
      ensures items == if Payload(fetch, true).None? then [LoadFailedNotice] else old(items)
    {
      match Payload(fetch, true)
      case None =>
        items := [LoadFailedNotice];
        articles := [];
      case Some(parsed) =>
        articles := parsed;
    }

    /** `renderArticles`: the container emptied, then one card appended per article, in order. */
    method RenderArticles(articles: seq<Article>)
      modifies this
      ensures items == Cards(articles)
    {
      items := [];
      var i := 0;
      while i < |articles|
        invariant 0 <= i <= |articles|
        invariant |items| == i
        invariant forall k :: 0 <= k < i ==> items[k] == CardItem(ArticleCard(articles[k]))
      {
        items := items + [CardItem(ArticleCard(articles[i]))];
        i := i + 1;
      }
    }

    /** The initial load: the listing is rendered only when there are articles. */
    method Start(fetch: Fetch)
      modifies this
      ensures items == if Payload(fetch, true).None? then [LoadFailedNotice]
                       else if FetchedArticles(fetch) == [] then old(items)
                       else Cards(FetchedArticles(fetch))
    {
      var articles := GetArticles(fetch);
      if |articles| > 0 {
        RenderArticles(articles);
      }
    }

    /** The random-article button: with articles, exactly the one at the drawn position is rendered. */
    method RandomArticle(fetch: Fetch, r: real)
      requires 0.0 <= r < 1.0
      modifies this
      ensures Payload(fetch, true).None? ==> items == [LoadFailedNotice]
      ensures Payload(fetch, true).Some? && FetchedArticles(fetch) == [] ==> items == old(items)
      ensures FetchedArticles(fetch) != [] ==>
                items == Cards([FetchedArticles(fetch)[RandomIndex(r, |FetchedArticles(fetch)|)]])
    {
      var all := GetArticles(fetch);
      if |all| > 0 {
        var k := RandomIndex(r, |all|);
        RenderArticles([all[k]]);
      }
    }
  }

  // ---------------------------------------------------------------------------
  // the typed-text phrases

  const Phrases: seq<string> := [
    "Desarrollo Soluciones Digitales Modernas",
    "Construyo Experiencias de Usuario Intuitivas",
    "Te Ayudo a Crear tu Próxima App iOS",
    "Mi Código Transforma Ideas en Realidad"]

  /** `phrases.length`. */
  const PhraseCount: nat := 4

  lemma PhraseCountIsLength()
    ensures |Phrases| == PhraseCount
  {
  }

  /** `phraseIndex` after `cycles` phrases have been typed and erased. */
  function PhraseAfter(cycles: nat): (i: nat)
    ensures i < PhraseCount
  {
    if cycles == 0 then 0 else (PhraseAfter(cycles - 1) + 1) % PhraseCount
  }

  lemma {:induction false} PhraseAfterIsModulo(cycles: nat)
    ensures PhraseAfter(cycles) == cycles % PhraseCount
  {
    if cycles > 0 {
      PhraseAfterIsModulo(cycles - 1);
    }
  }

  lemma CloseResiduesDiffer(a: nat, b: nat)
    requires a < b < a + 4
    ensures a % 4 != b % 4
  {
    var q, r := a / 4, a % 4;
    assert a == 4 * q + r;
    if r + (b - a) < 4 {
      assert b == 4 * q + (r + (b - a));
    } else {
      assert b == 4 * (q + 1) + (r + (b - a) - 4);
    }
  }

  /** Any four consecutive cycles show four different phrases. */
  lemma PhrasesInTurn(cycles: nat)
    ensures forall a, b :: cycles <= a < b < cycles + PhraseCount ==> PhraseAfter(a) != PhraseAfter(b)
  {
    forall a: nat, b: nat | cycles <= a < b < cycles + PhraseCount
      ensures PhraseAfter(a) != PhraseAfter(b)
    {
      PhraseAfterIsModulo(a);
      PhraseAfterIsModulo(b);
      CloseResiduesDiffer(a, b);
    }
  }

  /** After four cycles the same phrase comes back. */
  lemma {:induction false} PhrasesRepeat(cycles: nat)
    ensures PhraseAfter(cycles + PhraseCount) == PhraseAfter(cycles)
  {
    if cycles == 0 {
      PhrasesRepeatBase();
    } else {
      PhrasesRepeat(cycles - 1);
      PhraseStep(cycles + 3);
      PhraseStep(cycles - 1);
    }
  }

  lemma PhrasesRepeatBase()
    ensures PhraseAfter(4) == 0
  {
  }

  lemma PhraseStep(n: nat)
    ensures PhraseAfter(n + 1) == (PhraseAfter(n) + 1) % PhraseCount
  {
  }

  /** The `#typed-text` animation's `phraseIndex`; `cycles` counts the completed erasures. */
  class Typewriter {
    var phraseIndex: nat
    ghost var cycles: nat

    ghost predicate Valid()
      reads this
    {
      phraseIndex == PhraseAfter(cycles)
    }

    constructor ()
      ensures Valid() && phraseIndex == 0 && cycles == 0
    {
      phraseIndex := 0;
      cycles := 0;
    }

    /** The phrase `typePhrase` types next. */
    function CurrentPhrase(): (p: string)
      reads this
      requires Valid()
      ensures p in Phrases
    {
      PhraseCountIsLength();
      Phrases[phraseIndex]
    }

    /** `erasePhrase`'s completion: the index steps to the next phrase, wrapping after the last. */
    method PhraseErased()
      requires Valid()
      modifies this
      ensures Valid()
      ensures cycles == old(cycles) + 1
      ensures phraseIndex == (old(phraseIndex) + 1) % PhraseCount
    {
      phraseIndex := (phraseIndex + 1) % PhraseCount;
      cycles := cycles + 1;
    }
  }

  // ---------------------------------------------------------------------------
  // the article page

  /** `<p>${content.replace(/\n/g, '</p><p>')}</p>`: each line of the content in its own paragraph. */
  function Body(content: string): (b: string)
    ensures b == Wrapped(Text.Split(content, '\n'))
  {
    Text.ReplaceAllIsJoinOfSplit(content, '\n', "</p><p>");
    WrappedJoin(Text.Split(content, '\n'));
    "<p>" + Text.ReplaceAll(content, '\n', "</p><p>") + "</p>"
  }

  lemma {:induction false} WrappedJoin(parts: seq<string>)
    requires |parts| >= 1
    ensures "<p>" + Text.Join(parts, "</p><p>") + "</p>" == Wrapped(parts)
  {
    if |parts| == 1 {
      assert Wrapped(parts) == "<p>" + parts[0] + "</p>" + Wrapped([]);
    } else {
      WrappedJoin(parts[1..]);
      assert Text.Join(parts, "</p><p>") == parts[0] + "</p><p>" + Text.Join(parts[1..], "</p><p>");
      assert "</p><p>" == "</p>" + "<p>";
    }
  }

  /**
   * The body has one paragraph per line of the content, empty lines included:
   * as many as there are line breaks, plus one.
   */
  lemma BodyKeepsEveryLine(content: string)
    ensures Body(content) == Wrapped(Text.Split(content, '\n'))
    ensures |Text.Split(content, '\n')| == Text.Count(content, '\n') + 1
  {
    Text.SplitCount(content, '\n');
  }

  /** What `renderArticleContent` writes into `#article-content`. */
  datatype ContentView = NotFoundText | ErrorText | ArticleBody(tag: string, title: string, date: string, bodyHtml: string)

  /** The content written and the document title set, if any. */
  datatype ContentResult = ContentResult(view: Option<ContentView>, documentTitle: Option<string>)

  /**
   * `renderArticleContent`: nothing without the container; the not-found text
   * for a missing id, without fetching, and for an id no article has; the
   * error text when the fetch or the parsing throws (`response.ok` is not
   * looked at); otherwise the first article with the id, and the page title.
   */
  function RenderArticleContent(query: Option<string>, hasContainer: bool, fetch: Fetch): (r: ContentResult)
    ensures !hasContainer ==> r == ContentResult(None, None)
    ensures r.view == Some(NotFoundText) <==>
              hasContainer && (!HasId(query) || SelectOutcome(query, Payload(fetch, false)) == NotFound)
    ensures r.view == Some(ErrorText) <==>
              hasContainer && HasId(query) && (fetch.Rejected? || fetch.response.body.None?)
    ensures r.documentTitle.Some? <==> r.view.Some? && r.view.value.ArticleBody?
    ensures hasContainer && SelectOutcome(query, Payload(fetch, false)).Found? ==> r.documentTitle.Some?
    ensures r.documentTitle.Some? ==>
              var o := SelectOutcome(query, Payload(fetch, false));
              o.Found? && r.view.value.title == o.article.title &&
              r.view.value.tag == o.article.tag && r.view.value.date == o.article.date &&
              r.view.value.bodyHtml == Wrapped(Text.Split(o.article.content, '\n')) &&
              r.documentTitle.value == o.article.title + " | Luciano Nicolini"
  {
    if !HasId(query) || !hasContainer then
      ContentResult(if hasContainer then Some(NotFoundText) else None, None)
    else
      match SelectOutcome(query, Payload(fetch, false))
      case FetchError => ContentResult(Some(ErrorText), None)
      case NotFound => ContentResult(Some(NotFoundText), None)
      case Found(a) =>
        ContentResult(Some(ArticleBody(a.tag, a.title, a.date, Body(a.content))), Some(a.title + " | Luciano Nicolini"))
  }

  /** Without an id (or without the container) no fetch is made: the result is the same whatever it would give. */
  lemma MissingIdIssuesNoFetch(query: Option<string>, hasContainer: bool, f1: Fetch, f2: Fetch)
    requires !HasId(query) || !hasContainer
    ensures RenderArticleContent(query, hasContainer, f1) == RenderArticleContent(query, hasContainer, f2)
  {
  }
}
