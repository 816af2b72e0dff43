/**
 * The shared script of the WebLuciano site (`js/main.js`): the article cards
 * of the home page, the detail view of the article page (paragraphs, reading
 * time and its three fallback views), and the navigation link highlighted
 * while scrolling.
 */
module SiteMain {
  import opened Wrappers
  import opened Articles
  import Text

  // ---------------------------------------------------------------------------
  // listing cards

  /** `tag-${tag.toLowerCase()}`: the CSS class of a card's tag. */
  function TagClass(tag: string): (c: string)
    ensures Text.StartsWith(c, "tag-") && |c| == |tag| + 4
    ensures forall k :: 0 <= k < |tag| ==> c[4 + k] == Text.LowerChar(tag[k])
    ensures forall k :: 4 <= k < |c| ==> !Text.IsUpper(c[k])
  {
    "tag-" + Text.ToLower(tag)
  }

  /** A tag written without capitals is its own class name after `tag-`. */
  lemma TagClassOfLowerTag(tag: string)
    requires forall k :: 0 <= k < |tag| ==> !Text.IsUpper(tag[k])
    ensures TagClass(tag) == "tag-" + tag
  {
    var c := TagClass(tag);
    assert c[4..] == tag by {
      forall k | 0 <= k < |tag|
        ensures c[4..][k] == tag[k]
      {
        assert c[4 + k] == Text.LowerChar(tag[k]);
      }
    }
    assert c == c[..4] + c[4..];
  }

  /** The class does not depend on how the tag is capitalised. */
  lemma TagClassIgnoresCase(tag: string)
    ensures TagClass(Text.ToLower(tag)) == TagClass(tag)
  {
    Text.ToLowerIdempotent(tag);
  }

  const DetailPrefix: string := "articles.html?id="

  /** `articles.html?id=${id}`: the card's link, from which the id reads back. */
  function CardHref(id: string): (h: string)
    ensures Text.StartsWith(h, DetailPrefix) && h[|DetailPrefix|..] == id
  {
    DetailPrefix + id
  }

  /** What a card shows: its link, the article's icon, the tag with its class, title, date and excerpt. */
  datatype Card = Card(href: string, icon: string, tagClass: string, tag: string, title: string, date: string, excerpt: string)

  /** The card of an article: its own link, icon, tag, title, date and excerpt, and the tag's class. */
  function ListingCard(a: Article): (c: Card)
    ensures Text.StartsWith(c.href, DetailPrefix) && c.href[|DetailPrefix|..] == a.id && c.tagClass == TagClass(a.tag)
    ensures c.icon == a.icon && c.tag == a.tag && c.title == a.title && c.date == a.date && c.excerpt == a.excerpt
  {
    Card(CardHref(a.id), a.icon, TagClass(a.tag), a.tag, a.title, a.date, a.excerpt)
  }

  /** A child of `#articles-container`. */
  datatype ListingItem = StaticItem | CardItem(card: Card) | ListingError

  /** One card per article, in the order of the collection. */
  function Cards(articles: seq<Article>): (items: seq<ListingItem>)
    ensures |items| == |articles|
    ensures forall k :: 0 <= k < |articles| ==> items[k] == CardItem(ListingCard(articles[k]))
  {
    seq(|articles|, k requires 0 <= k < |articles| => CardItem(ListingCard(articles[k])))
  }

  /**
   * Each card links to the detail page that, with unique ids, shows that
   * card's article, for an id that the query string carries unchanged.
   */
  lemma CardLinksToItsArticle(articles: seq<Article>, k: nat)
    requires UniqueIds(articles) && k < |articles| && articles[k].id != ""
    ensures Cards(articles)[k].card.href[|DetailPrefix|..] == articles[k].id
    ensures DetailFor(Some(articles[k].id), Responded(Response(true, Some(articles)))) == Detail(articles[k])
  {
    OwnIdIsFound(articles, k);
  }

  /** `#articles-container` on the home page. */
  class ArticleList {
    var items: seq<ListingItem>

    constructor (items: seq<ListingItem>)
      ensures this.items == items
    {
      this.items := items;
    }

    /**
     * The home-page fetch: on success the container is emptied and one card
     * appended per article, in order; if the promise chain throws (a rejected
     * fetch, a non-ok response, an unparsable body) it holds the error message.
     */
    method Populate(fetch: Fetch)
      modifies this
      ensures items == match Payload(fetch, true) case None => [ListingError] case Some(articles) => Cards(articles)
    {
      match Payload(fetch, true)
      case None =>
        items := [ListingError];
      case Some(articles) =>
        items := [];
        var i := 0;
        while i < |articles|
          invariant 0 <= i <= |articles|
          invariant |items| == i
          invariant forall k :: 0 <= k < i ==> items[k] == CardItem(ListingCard(articles[k]))
        {
          items := items + [CardItem(ListingCard(articles[i]))];
          i := i + 1;
        }
    }
  }

  // ---------------------------------------------------------------------------
  // paragraphs

  /** What `map` makes of one line: `<p>` around the trimmed line, or `''` for a blank one. */
  function LineHtml(line: string): (h: string)
    ensures h == "" <==> Text.Blank(line)
  {
    var t := Text.Trim(line);
    Text.TrimBothEnds(line);
    if t != "" then "<p>" + t + "</p>" else ""
  }

  function LinesHtml(lines: seq<string>): seq<string> {
    if |lines| == 0 then [] else [LineHtml(lines[0])] + LinesHtml(lines[1..])
  }

  /** `filter(p => p)`: the non-empty strings, in order. */
  function NonEmpty(parts: seq<string>): seq<string> {
    if |parts| == 0 then [] else (if parts[0] == "" then [] else [parts[0]]) + NonEmpty(parts[1..])
  }

  /** `join('')`. */
  function Concat(parts: seq<string>): string {
    if |parts| == 0 then "" else parts[0] + Concat(parts[1..])
  }

  /** The inside of `.article-body`: `content.split('\n').map(...).filter(p => p).join('')`. */
  function BodyHtml(content: string): (b: string)
    ensures b == Wrapped(Paragraphs(content))
  {
    LinesHtmlAreWrappedParagraphs(Text.Split(content, '\n'));
    Concat(NonEmpty(LinesHtml(Text.Split(content, '\n'))))
  }

  /** The paragraph a line gives: none for a blank line, the trimmed line otherwise. */
  function LineParagraph(line: string): seq<string> {
    var t := Text.Trim(line);
    if t == "" then [] else [t]
  }

  /** The trimmed non-blank lines, in order. */
  function TrimmedNonBlank(lines: seq<string>): (ps: seq<string>)
    ensures |ps| <= |lines|
  {
    if |lines| == 0 then [] else LineParagraph(lines[0]) + TrimmedNonBlank(lines[1..])
  }

  /** A paragraph as the page writes it: non-empty, with nothing left to trim. */
  predicate IsParagraph(p: string) {
    p != "" && Text.Trim(p) == p
  }

  lemma LineParagraphIsParagraph(line: string)
    ensures forall k :: 0 <= k < |LineParagraph(line)| ==> IsParagraph(LineParagraph(line)[k])
  {
    Text.TrimIdempotent(line);
  }

  /** Every paragraph is non-empty and already trimmed. */
  lemma {:induction false} TrimmedNonBlankAreTrimmed(lines: seq<string>)
    ensures forall k :: 0 <= k < |TrimmedNonBlank(lines)| ==> IsParagraph(TrimmedNonBlank(lines)[k])
  {
    if |lines| > 0 {
      var head, rest := LineParagraph(lines[0]), TrimmedNonBlank(lines[1..]);
      TrimmedNonBlankAreTrimmed(lines[1..]);
      LineParagraphIsParagraph(lines[0]);
      var ps := head + rest;
      assert TrimmedNonBlank(lines) == ps;
      forall k | 0 <= k < |ps|
        ensures IsParagraph(ps[k])
      {
        if k < |head| {
          assert ps[k] == head[k];
        } else {
          assert ps[k] == rest[k - |head|];
        }
      }
    }
  }

  /** The paragraphs of an article: its lines, trimmed, without the blank ones. */
  function Paragraphs(content: string): (ps: seq<string>)
    ensures forall k :: 0 <= k < |ps| ==> IsParagraph(ps[k])
  {
    TrimmedNonBlankAreTrimmed(Text.Split(content, '\n'));
    TrimmedNonBlank(Text.Split(content, '\n'))
  }

  lemma {:induction false} LinesHtmlAreWrappedParagraphs(lines: seq<string>)
    ensures Concat(NonEmpty(LinesHtml(lines))) == Wrapped(TrimmedNonBlank(lines))
  {
    if |lines| > 0 {
      var rest := lines[1..];
      LinesHtmlAreWrappedParagraphs(rest);
      var t := Text.Trim(lines[0]);
      var h := LinesHtml(lines);
      assert h == [LineHtml(lines[0])] + LinesHtml(rest);
      assert h[0] == LineHtml(lines[0]) && h[1..] == LinesHtml(rest);
      var n := NonEmpty(LinesHtml(rest));
      var ps := TrimmedNonBlank(rest);
      if t == "" {
        assert NonEmpty(h) == n;
        assert TrimmedNonBlank(lines) == ps;
      } else {
        var x := "<p>" + t + "</p>";
        assert NonEmpty(h) == [x] + n;
        assert ([x] + n)[1..] == n;
        assert Concat([x] + n) == x + Concat(n);
        assert TrimmedNonBlank(lines) == [t] + ps;
        assert ([t] + ps)[1..] == ps;
        assert Wrapped([t] + ps) == x + Wrapped(ps);
      }
    }
  }


  lemma {:induction false} TrimmedNonBlankAppend(a: seq<string>, b: seq<string>)
    ensures TrimmedNonBlank(a + b) == TrimmedNonBlank(a) + TrimmedNonBlank(b)
  {
    if |a| > 0 {
      assert (a + b)[0] == a[0];
      assert (a + b)[1..] == a[1..] + b;
      TrimmedNonBlankAppend(a[1..], b);
      var head := LineParagraph(a[0]);
      assert TrimmedNonBlank(a + b) == head + TrimmedNonBlank(a[1..] + b);
      assert TrimmedNonBlank(a) == head + TrimmedNonBlank(a[1..]);
      AppendAssociates(head, TrimmedNonBlank(a[1..]), TrimmedNonBlank(b));
    } else {
      assert a + b == b;
    }
  }

  lemma AppendAssociates<T>(x: seq<T>, y: seq<T>, z: seq<T>)
    ensures x + (y + z) == x + y + z
  {
  }

  /** Paragraphs follow the lines: those of the text before a line break come first. */
  lemma ParagraphsAroundBreak(a: string, b: string)
    requires '\n' !in a
    ensures Paragraphs(a + "\n" + b) == Paragraphs(a) + Paragraphs(b)
  {
    Text.SplitAround(a, '\n', b);
    TrimmedNonBlankAppend(Text.Split(a, '\n'), Text.Split(b, '\n'));
  }

  /** A single line is one paragraph, its trimmed self, unless it is blank. */
  lemma ParagraphsOfLine(line: string)
    requires '\n' !in line
    ensures Paragraphs(line) == if Text.Blank(line) then [] else [Text.Trim(line)]
  {
    Text.TrimBothEnds(line);
    Text.JoinSplit(line, '\n');
    Text.SplitCount(line, '\n');
    CountAbsent(line, '\n');
  }

  lemma {:induction false} CountAbsent(s: string, c: char)
    requires c !in s
    ensures Text.Count(s, c) == 0
  {
    if |s| > 0 {
      CountAbsent(s[1..], c);
    }
  }

  // ---------------------------------------------------------------------------
  // reading time

  /** `content.split(' ').length`: one more than the number of spaces. */
  function SpaceWordCount(content: string): (n: nat)
    ensures n == Text.Count(content, ' ') + 1
  {
    Text.SplitCount(content, ' ');
    |Text.Split(content, ' ')|
  }

  /**
   * `Math.ceil(wordCount / 200)`: the fewest whole minutes for the words at
   * 200 a minute; at least one although no floor is applied, since the split
   * always has a piece.
   */
  function SpaceReadingMinutes(content: string): (m: nat)
    ensures m >= 1
    ensures SpaceWordCount(content) <= 200 * m && 200 * (m - 1) < SpaceWordCount(content)
  {
    (SpaceWordCount(content) + 199) / 200
  }

  // ---------------------------------------------------------------------------
  // the detail view

  /** What `#article-content` and the header show on the article page. */
  datatype DetailView =
    | NoArticleId
    | ArticleNotFound
    | ArticleLoadError
    | ArticleShown(documentTitle: string, title: string, tagHtml: string, date: string, bodyHtml: string, readingMinutes: nat)

  function Detail(a: Article): (v: DetailView)
    ensures v.ArticleShown? && v.title == a.title && v.date == a.date
    ensures v.bodyHtml == Wrapped(Paragraphs(a.content))
    ensures Text.Includes(v.tagHtml, a.icon) && Text.Includes(v.tagHtml, a.tag)
    ensures v.documentTitle == a.title + " | Portfolio - Desarrollador iOS & Web"
    ensures v.readingMinutes == SpaceReadingMinutes(a.content)
  {
    ArticleShown(
      a.title + " | Portfolio - Desarrollador iOS & Web",
      a.title,
      IconLabel(a.icon, a.tag),
      a.date,
      BodyHtml(a.content),
      SpaceReadingMinutes(a.content))
  }

  /**
   * The article page of `main.js`: no id, a failed fetch (rejected, non-ok or
   * unparsable), no such article, or the first article with the id; the
   * three fallbacks are distinct views, and only the first issues no fetch.
   */
  function DetailFor(query: Option<string>, fetch: Fetch): (v: DetailView)
    ensures v == NoArticleId <==> !HasId(query)
    ensures v == ArticleLoadError <==> HasId(query) && (fetch.Rejected? || !fetch.response.ok || fetch.response.body.None?)
    ensures v == ArticleNotFound <==> SelectOutcome(query, Payload(fetch, true)) == NotFound
    ensures v.ArticleShown? <==> SelectOutcome(query, Payload(fetch, true)).Found?
    ensures v.ArticleShown? ==> v == Detail(SelectOutcome(query, Payload(fetch, true)).article)
  {
    match SelectOutcome(query, Payload(fetch, true))
    case NoId => NoArticleId
    case FetchError => ArticleLoadError
    case NotFound => ArticleNotFound
    case Found(a) => Detail(a)
  }

  /** Without an id the view is the same whatever the fetch would have given. */
  lemma MissingIdIssuesNoFetch(query: Option<string>, f1: Fetch, f2: Fetch)
    requires !HasId(query)
    ensures DetailFor(query, f1) == DetailFor(query, f2) == NoArticleId
  {
  }

  // ---------------------------------------------------------------------------
  // updateActiveNav

  /** A `section[id]` with its layout: `offsetTop` and `offsetHeight`. */
  datatype Section = Section(id: string, offsetTop: int, height: int)

  /** `scrollY` lies in the section's band `(offsetTop - 100, offsetTop - 100 + height]`. */
  predicate Covers(s: Section, scrollY: int) {
    var top := s.offsetTop - 100;
    scrollY > top && scrollY <= top + s.height
  }

  /** The position of the last section whose band holds `scrollY`. */
  function LastCovering(sections: seq<Section>, scrollY: int): (r: Option<nat>)
    ensures r.Some? ==> r.value < |sections| && Covers(sections[r.value], scrollY)
    ensures r.Some? ==> forall j :: r.value < j < |sections| ==> !Covers(sections[j], scrollY)
    ensures r.None? ==> forall j :: 0 <= j < |sections| ==> !Covers(sections[j], scrollY)
  {
    if |sections| == 0 then None
    else if Covers(sections[|sections| - 1], scrollY) then Some(|sections| - 1)
    else LastCovering(sections[..|sections| - 1], scrollY)
  }

  /** The `active` flags once only the links to `#id` carry it. */
  function ActiveFor(hrefs: seq<Option<string>>, id: string): (r: seq<bool>)
    ensures |r| == |hrefs|
    ensures forall j :: 0 <= j < |hrefs| ==> (r[j] <==> hrefs[j] == Some("#" + id))
  {
    seq(|hrefs|, j requires 0 <= j < |hrefs| => hrefs[j] == Some("#" + id))
  }

  /** The `.nav-link` elements: their `href` attributes and their `active` classes. */
  class NavLinks {
    const hrefs: seq<Option<string>>
    const active: array<bool>

    ghost predicate Valid()
      reads this
    {
      active.Length == |hrefs|
    }

    constructor (hrefs: seq<Option<string>>, initial: seq<bool>)
      requires |initial| == |hrefs|
      ensures Valid() && fresh(active) && active[..] == initial && this.hrefs == hrefs
    {
      this.hrefs := hrefs;
      active := new bool[|initial|](j requires 0 <= j < |initial| => initial[j]);
    }

    /**
     * `updateActiveNav` for the sections and the scroll offset: every section
     * whose band holds `scrollY` in turn leaves only its own link active, so
     * the last such section wins; with none (or no sections at all) the flags
     * stay as they were.
     */
    method UpdateActiveNav(sections: seq<Section>, scrollY: int)
      requires Valid()
      modifies active
      ensures active[..] == match LastCovering(sections, scrollY)
                            case None => old(active[..])
                            case Some(k) => ActiveFor(hrefs, sections[k].id)
    {
      if |sections| == 0 {
        return;
      }
      var i := 0;
      while i < |sections|
        invariant 0 <= i <= |sections|
        invariant active[..] == match LastCovering(sections[..i], scrollY)
                                case None => old(active[..])
                                case Some(k) => ActiveFor(hrefs, sections[k].id)
      {
        assert sections[..i + 1][..i] == sections[..i];
        if Covers(sections[i], scrollY) {
          var target := "#" + sections[i].id;
          var j := 0;
          while j < active.Length
            invariant 0 <= j <= active.Length
            invariant forall m :: 0 <= m < j ==> active[m] == (hrefs[m] == Some(target))
          {
            active[j] := false;
            if hrefs[j] == Some(target) {
              active[j] := true;
            }
            j := j + 1;
          }
          assert active[..] == ActiveFor(hrefs, sections[i].id);
        }
        i := i + 1;
      }
      assert sections[..|sections|] == sections;
    }
  }
}
