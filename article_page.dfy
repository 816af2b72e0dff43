/**
 * The single-article page of the WebLuciano site (`js/articles.js`): the
 * reading-time estimate, the choice between the not-found, error and article
 * views, the loading overlay guarded by `State.isLoading`, the one-at-a-time
 * notification toast, the error page's button icon, the reading-progress bar
 * and the copy button added to code blocks.
 */
module ArticlePage {
  import opened Wrappers
  import opened Articles
  import Text

  /** `CONFIG.WORDS_PER_MINUTE`. */
  const WordsPerMinute: nat := 200

  // ---------------------------------------------------------------------------
  // reading time

  /**
   * `text.trim().split(/\s+/).length`: the number of words of the text, or 1
   * for a blank text (whose split still holds one empty piece).
   */
  function WordCount(text: string): (n: nat)
    ensures n >= 1
    ensures n == if Text.Blank(text) then 1 else Text.Words(text)
  {
    Text.SplitTrimCountsWords(text);
    |Text.SplitWhitespace(Text.Trim(text))|
  }

  /**
   * `Math.max(1, Math.ceil(words / WORDS_PER_MINUTE))`: the fewest whole
   * minutes, and at least one, in which `words` words are read at 200 a minute.
   */
  function ReadingMinutes(words: nat): (m: nat)
    ensures m >= 1
    ensures words <= WordsPerMinute * m
    ensures m == 1 || WordsPerMinute * (m - 1) < words
  {
    var rounded := (words + WordsPerMinute - 1) / WordsPerMinute;
    if rounded < 1 then 1 else rounded
  }

  /** The minutes shown in `#reading-time` for a body whose text is `text`. */
  function ReadingTime(text: string): (m: nat)
    ensures m >= 1
  {
    ReadingMinutes(WordCount(text))
  }

  /** The bands of the estimate: no words and up to 200 words read in one minute, 400 words in two. */
  lemma ReadingMinutesBands(words: nat)
    ensures words <= 200 ==> ReadingMinutes(words) == 1
    ensures 200 < words <= 400 ==> ReadingMinutes(words) == 2
    ensures ReadingMinutes(400) == 2
  {
  }

  /** `word` repeated `n` times, each copy followed by a space. */
  function RepeatWord(n: nat): (s: string)
    ensures |s| == 5 * n
  {
    if n == 0 then "" else "word " + RepeatWord(n - 1)
  }

  lemma {:induction false} WordsOfRepeatWord(n: nat)
    ensures Text.Words(RepeatWord(n)) == n
  {
    if n > 0 {
      var rest := " " + RepeatWord(n - 1);
      assert RepeatWord(n) == "word" + rest;
      assert Text.Solid("word");
      Text.WordsConcat("word", rest);
      assert rest[1..] == RepeatWord(n - 1);
      WordsOfRepeatWord(n - 1);
    }
  }

  /**
   * A body of `n` copies of "word " (the text ends in a space) counts `n`
   * words; 400 of them read in two minutes.
   */
  lemma RepeatedWordReadingTime(n: nat)
    requires n > 0
    ensures WordCount(RepeatWord(n)) == n
    ensures ReadingTime(RepeatWord(n)) == ReadingMinutes(n)
    ensures n == 400 ==> ReadingTime(RepeatWord(n)) == 2
  {
    var s := RepeatWord(n);
    assert s[0] == 'w';
    WordsOfRepeatWord(n);
  }

  // ---------------------------------------------------------------------------
  // reading progress

  /**
   * The width, in percent, of `#reading-progress`: how far `scrollTop` is
   * through the scrollable height, clamped to [0, 100], and 0 when the page
   * cannot scroll.
   */
  function ProgressWidth(scrollTop: real, scrollHeight: real): (w: real)
    ensures 0.0 <= w <= 100.0
    ensures scrollHeight <= 0.0 || scrollTop <= 0.0 ==> w == 0.0
    ensures scrollHeight > 0.0 && scrollTop >= scrollHeight ==> w == 100.0
    ensures scrollHeight > 0.0 && 0.0 <= scrollTop <= scrollHeight ==> w * scrollHeight == scrollTop * 100.0
  {
    var percent := if scrollHeight <= 0.0 then 0.0 else scrollTop / scrollHeight * 100.0;
    var atLeastZero := if percent < 0.0 then 0.0 else percent;
    if atLeastZero > 100.0 then 100.0 else atLeastZero
  }

  // ---------------------------------------------------------------------------
  // error pages

  /** The fallback page `createErrorPage` writes into `.article-container`. */
  datatype ErrorPage = ErrorPage(title: string, message: string, buttonText: string, buttonAction: string)

  const BackLabel: string := "Volver a artículos"

  /** `showArticleNotFound`'s page. */
  const NotFoundPage: ErrorPage := ErrorPage(
    "Artículo no encontrado",
    "Lo sentimos, el artículo que buscas no existe o ha sido movido.",
    BackLabel,
    "window.location.href=\"index.html#articles\"")

  /** The message `loadArticleContent` passes to `showError`. */
  const LoadFailureMessage: string := "No se pudo cargar el artículo. Verifica tu conexión a internet."

  /** `showError(message)`'s page: the message followed by a request to reload. */
  function FailurePage(message: string): (p: ErrorPage)
    ensures p.buttonText != BackLabel
  {
    ErrorPage("Error", message + "\nPor favor, intenta recargar la página.", "Recargar página", "location.reload()")
  }

  /** The Font Awesome icon of the error page's button: back arrow for the way back, refresh otherwise. */
  function ButtonIcon(buttonText: string): (icon: string)
    ensures icon == "arrow-left" || icon == "refresh"
    ensures icon == "arrow-left" <==> buttonText == BackLabel
  {
    if buttonText == BackLabel then "arrow-left" else "refresh"
  }

  // ---------------------------------------------------------------------------
  // choosing the view

  /**
   * How `loadArticleContent` ends for a query-string `id` and what fetching
   * the collection gave: `fetchArticleById` reads the body without looking at
   * `response.ok`, so only a rejected fetch or an unparsable body is an error.
   */
  function PageOutcome(query: Option<string>, fetch: Fetch): (o: Outcome)
    ensures o == FetchError <==> HasId(query) && (fetch.Rejected? || fetch.response.body.None?)
  {
    SelectOutcome(query, Payload(fetch, false))
  }

  /** Without an id the outcome does not depend on the fetch: the page issues none. */
  lemma NoIdIssuesNoFetch(query: Option<string>, f1: Fetch, f2: Fetch)
    requires !HasId(query)
    ensures PageOutcome(query, f1) == PageOutcome(query, f2) == NoId
  {
  }

  /** What `renderArticle` and `calculateReadingTime` write for an article. */
  datatype RenderedArticle = RenderedArticle(
    tagHtml: string,
    title: string,
    date: string,
    bodyHtml: string,
    documentTitle: string,
    readingMinutes: nat)

  function Render(a: Article): (r: RenderedArticle)
    ensures r.title == a.title && r.date == a.date
    ensures r.documentTitle == a.title + " | Portfolio - Desarrollador iOS & Web"
    ensures r.readingMinutes == ReadingMinutes(WordCount(a.content))
    ensures Text.Includes(r.bodyHtml, a.content)
    ensures Text.Includes(r.tagHtml, a.icon) && Text.Includes(r.tagHtml, a.tag)
  {
    Text.IncludesMiddle("<div class=\"article-body\">", a.content, "</div>");
    RenderedArticle(
      IconLabel(a.icon, a.tag),
      a.title,
      a.date,
      "<div class=\"article-body\">" + a.content + "</div>",
      a.title + " | Portfolio - Desarrollador iOS & Web",
      ReadingTime(a.content))
  }

  /** What the page shows. */
  datatype View = Unrendered | ErrorView(page: ErrorPage) | ArticleView(article: RenderedArticle)

  /** The view each outcome leaves on the page. */
  function ViewOf(o: Outcome): (v: View)
    ensures o.Found? <==> v.ArticleView?
    ensures v.ArticleView? ==> v.article == Render(o.article)
    ensures v.ErrorView? ==> (ButtonIcon(v.page.buttonText) == "refresh" <==> o == FetchError)
  {
    match o
    case NoId => ErrorView(NotFoundPage)
    case NotFound => ErrorView(NotFoundPage)
    case FetchError => ErrorView(FailurePage(LoadFailureMessage))
    case Found(a) => ArticleView(Render(a))
  }

  /** A missing record and a failed fetch lead to different pages: back to the list, or reload. */
  lemma FailureViewsDiffer()
    ensures ViewOf(NotFound) == ViewOf(NoId) != ViewOf(FetchError)
    ensures ButtonIcon(ViewOf(NotFound).page.buttonText) == "arrow-left"
    ensures ButtonIcon(ViewOf(FetchError).page.buttonText) == "refresh"
  {
  }

  // ---------------------------------------------------------------------------
  // page state: State, LoaderSystem, loadArticleContent

  /**
   * The page's mutable state: the global `State` record, the `#article-loader`
   * overlays in the document, and the removals `LoaderSystem.hide` has
   * scheduled. DOM nodes are told apart by a number handed out once.
   */
  class ArticlePageState {
    var isLoading: bool
    var currentArticle: Option<Article>
    /** The `#article-loader` nodes in the body, in document order. */
    var loaders: seq<nat>
    /** The loader removals `hide` has scheduled and not yet run, each with the node it removes. */
    var pendingRemovals: seq<nat>
    var nextNode: nat
    var view: View

    /** At most one loader is mounted, one is mounted while `isLoading`, and node numbers are handed out once. */
    ghost predicate Valid()
      reads this
    {
      && |loaders| <= 1
      && (isLoading ==> |loaders| == 1)
      && (forall k :: 0 <= k < |loaders| ==> loaders[k] < nextNode)
      && (forall k :: 0 <= k < |pendingRemovals| ==> pendingRemovals[k] < nextNode)
    }

    constructor ()
      ensures Valid()
      ensures !isLoading && currentArticle == None && loaders == [] && pendingRemovals == [] && view == Unrendered
    {
      isLoading, currentArticle := false, None;
      loaders, pendingRemovals, nextNode := [], [], 0;
      view := Unrendered;
    }

    /** `LoaderSystem.show`: mounts a loader unless one is loading or mounted already. */
    method ShowLoader()
      requires Valid()
      modifies this
      ensures Valid()
      ensures if old(isLoading) || old(loaders) != [] then
                isLoading == old(isLoading) && loaders == old(loaders) && nextNode == old(nextNode)
              else
                isLoading && loaders == [old(nextNode)] && nextNode == old(nextNode) + 1
      ensures pendingRemovals == old(pendingRemovals) && currentArticle == old(currentArticle) && view == old(view)
    {
      if isLoading || |loaders| > 0 {
        return;
      }
      isLoading := true;
      loaders := loaders + [nextNode];
      nextNode := nextNode + 1;
    }

    /** `LoaderSystem.hide`: schedules the removal of the mounted loader, if there is one. */
    method HideLoader()
      requires Valid()
      modifies this
      ensures Valid()
      ensures pendingRemovals == if old(loaders) == [] then old(pendingRemovals) else old(pendingRemovals) + [old(loaders)[0]]
      ensures isLoading == old(isLoading) && loaders == old(loaders) && nextNode == old(nextNode)
      ensures currentArticle == old(currentArticle) && view == old(view)
    {
      if |loaders| > 0 {
        pendingRemovals := pendingRemovals + [loaders[0]];
      }
    }

    /**
     * The scheduled removal number `k` runs: its node leaves the document and
     * `isLoading` is cleared.
     */
    method RunPendingRemoval(k: nat)
      requires Valid() && k < |pendingRemovals|
      modifies this
      ensures Valid()
      ensures !isLoading
      ensures loaders == if old(pendingRemovals[k]) in old(loaders) then [] else old(loaders)
      ensures pendingRemovals == old(pendingRemovals[..k] + pendingRemovals[k + 1..])
      ensures nextNode == old(nextNode) && currentArticle == old(currentArticle) && view == old(view)
    {
      var node := pendingRemovals[k];
      if node in loaders {
        loaders := [];
      }
      isLoading := false;
      pendingRemovals := pendingRemovals[..k] + pendingRemovals[k + 1..];
    }

    /**
     * `loadArticleContent` run to its end (the delayed rendering included):
     * the outcome, the view it leaves, `State.currentArticle` set only for a
     * found article, and, whenever a loader was shown, its removal scheduled
     * on every path that does not throw.
     */
    method LoadArticleContent(query: Option<string>, fetch: Fetch) returns (outcome: Outcome)
      requires Valid()
      modifies this
      ensures Valid()
      ensures outcome == PageOutcome(query, fetch)
      ensures view == ViewOf(outcome)
      ensures currentArticle == if outcome.Found? then Some(outcome.article) else old(currentArticle)
      ensures HasId(query) ==> |loaders| == 1 && pendingRemovals == old(pendingRemovals) + [loaders[0]]
      ensures HasId(query) && (old(isLoading) || old(loaders) != []) ==>
                isLoading == old(isLoading) && loaders == old(loaders) && nextNode == old(nextNode)
      ensures HasId(query) && !old(isLoading) && old(loaders) == [] ==>
                isLoading && loaders == [old(nextNode)] && nextNode == old(nextNode) + 1
      ensures !HasId(query) ==> isLoading == old(isLoading) && loaders == old(loaders) && nextNode == old(nextNode) &&
                                pendingRemovals == if old(loaders) == [] then old(pendingRemovals) else old(pendingRemovals) + [old(loaders)[0]]
    {
      outcome := PageOutcome(query, fetch);
      if HasId(query) {
        ShowLoader();
      }
      // every path ends in `hideLoader`: after the error page, or after the delayed rendering
      HideLoader();
      view, currentArticle := ViewOf(outcome), if outcome.Found? then Some(outcome.article) else currentArticle;
    }
  }

  // ---------------------------------------------------------------------------
  // NotificationSystem

  /** A `.notification` toast; `shown` is its `show` class. */
  datatype Notification = Notification(node: nat, message: string, kind: string, shown: bool)

  /** `notes` with the `show` class of node `node` set to `shown`. */
  function WithShown(notes: seq<Notification>, node: nat, shown: bool): (r: seq<Notification>)
    ensures |r| == |notes|
    ensures forall k :: 0 <= k < |notes| ==> r[k] == if notes[k].node == node then notes[k].(shown := shown) else notes[k]
  {
    seq(|notes|, k requires 0 <= k < |notes| => if notes[k].node == node then notes[k].(shown := shown) else notes[k])
  }

  /** `notes` without node `node`. */
  function Without(notes: seq<Notification>, node: nat): (r: seq<Notification>)
    ensures forall k :: 0 <= k < |r| ==> r[k] in notes && r[k].node != node
    ensures forall k :: 0 <= k < |notes| && notes[k].node != node ==> notes[k] in r
    ensures |r| <= |notes|
  {
    if |notes| == 0 then []
    else (if notes[0].node == node then [] else [notes[0]]) + Without(notes[1..], node)
  }

  /** The toasts in the body, the style sheet `addStyles` installs once, and fresh node numbers. */
  class NotificationSystem {
    var notes: seq<Notification>
    var stylesAdded: bool
    var nextNode: nat

    /** At most one toast is in the document. */
    ghost predicate Valid()
      reads this
    {
      |notes| <= 1 && forall k :: 0 <= k < |notes| ==> notes[k].node < nextNode
    }

    constructor ()
      ensures Valid() && notes == [] && !stylesAdded
    {
      notes, stylesAdded, nextNode := [], false, 0;
    }

    /** `NotificationSystem.remove`: the first `.notification` in the document leaves it. */
    method Remove()
      requires Valid()
      modifies this
      ensures Valid()
      ensures notes == if old(notes) == [] then [] else old(notes)[1..]
      ensures stylesAdded == old(stylesAdded) && nextNode == old(nextNode)
    {
      if |notes| > 0 {
        notes := notes[1..];
      }
    }

    /**
     * `NotificationSystem.show`: removes the toast already shown, then appends
     * a new one; afterwards the new toast is the only one.
     */
    method Show(message: string, kind: string) returns (node: nat)
      requires Valid()
      modifies this
      ensures Valid()
      ensures node == old(nextNode) && nextNode == old(nextNode) + 1
      ensures notes == [Notification(node, message, kind, false)]
      ensures stylesAdded
    {
      Remove();
      node := nextNode;
      nextNode := nextNode + 1;
      stylesAdded := true;
      notes := notes + [Notification(node, message, kind, false)];
    }

    /** The timer 10 ms after `show`: the toast gets its `show` class, if still present. */
    method Reveal(node: nat)
      requires Valid()
      modifies this
      ensures Valid()
      ensures notes == WithShown(old(notes), node, true)
      ensures stylesAdded == old(stylesAdded) && nextNode == old(nextNode)
    {
      notes := WithShown(notes, node, true);
    }

    /** `NotificationSystem.hide`, once `NOTIFICATION_DURATION` has passed: the `show` class goes. */
    method Hide(node: nat)
      requires Valid()
      modifies this
      ensures Valid()
      ensures notes == WithShown(old(notes), node, false)
      ensures stylesAdded == old(stylesAdded) && nextNode == old(nextNode)
    {
      notes := WithShown(notes, node, false);
    }

    /** The removal 300 ms after `hide`, or the close button: the toast leaves the document. */
    method Dismiss(node: nat)
      requires Valid()
      modifies this
      ensures Valid()
      ensures notes == Without(old(notes), node)
      ensures stylesAdded == old(stylesAdded) && nextNode == old(nextNode)
    {
      notes := Without(notes, node);
    }
  }

  // ---------------------------------------------------------------------------
  // addCopyButton

  /** What a `pre` element holds: its code, copy buttons, anything else. */
  datatype PreChild = CodeChild | CopyButton | OtherChild

  /** The number of copy buttons in `children`. */
  function Buttons(children: seq<PreChild>): nat {
    if |children| == 0 then 0 else (if children[0] == CopyButton then 1 else 0) + Buttons(children[1..])
  }

  lemma {:induction false} ButtonsCount(children: seq<PreChild>)
    ensures Buttons(children) > 0 <==> CopyButton in children
  {
    if |children| > 0 {
      ButtonsCount(children[1..]);
      assert children == [children[0]] + children[1..];
    }
  }

  lemma {:induction false} ButtonsAppend(children: seq<PreChild>, c: PreChild)
    ensures Buttons(children + [c]) == Buttons(children) + (if c == CopyButton then 1 else 0)
  {
    if |children| > 0 {
      assert (children + [c])[1..] == children[1..] + [c];
      ButtonsAppend(children[1..], c);
    }
  }

  /** The children of a `pre` after `addCopyButton`: a button is appended unless one is there. */
  function WithCopyButton(children: seq<PreChild>): (r: seq<PreChild>)
    ensures Buttons(r) == if Buttons(children) == 0 then 1 else Buttons(children)
    ensures children <= r && |r| <= |children| + 1
  {
    ButtonsCount(children);
    ButtonsAppend(children, CopyButton);
    if CopyButton in children then children else children + [CopyButton]
  }

  /** Adding a copy button twice is adding it once. */
  lemma CopyButtonIdempotent(children: seq<PreChild>)
    ensures WithCopyButton(WithCopyButton(children)) == WithCopyButton(children)
  {
  }

  /** A `pre` element: its children and whether `style.position` was set to `relative`. */
  class Pre {
    var children: seq<PreChild>
    var positioned: bool

    constructor (children: seq<PreChild>)
      ensures this.children == children && !positioned
    {
      this.children := children;
      positioned := false;
    }
  }

  /** `addCopyButton(codeBlock)` for the code block's parent `pre` (null when it has none). */
  method AddCopyButton(pre: Pre?)
    modifies pre
    ensures pre != null ==> pre.children == WithCopyButton(old(pre.children))
    ensures pre != null ==> pre.positioned == (old(pre.positioned) || CopyButton !in old(pre.children))
  {
    if pre == null || CopyButton in pre.children {
      return;
    }
    pre.positioned := true;
    pre.children := pre.children + [CopyButton];
  }
}
