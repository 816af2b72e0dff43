# Article pipeline of the Luciano Nicolini portfolio sites

The portfolio has two sites. Both show a list of articles read from `data/articles.json` and a page for a single article:

- **WebLuciano** has two scripts:
  - `js/main.js` renders the home-page listing and the detail view.
  - `js/articles.js` drives the dedicated article page.
- **replica-web** does both in one script, `replica-web/replica-web/js/main.js`.

Each script looks up the article by its `id` query parameter. Each then picks an outcome (no id, not found, load error, found) and renders it in its own way:

- a reading-time estimate;
- a rule that turns the body into paragraphs;
- a CSS class and icon for the tag.

Around this sit a few small pieces of browser state:

- the loading overlay and its `State.isLoading` guard;
- the single notification toast;
- the copy button on code blocks;
- the highlighted navigation link;
- the typed-text phrase cycle;
- the navbar's scrolled class.

The model is split into these modules:

- `wrappers.dfy` — `Option`.
- `text.dfy` — the JavaScript string operations the scripts rely on:
  - `trim` and the `\s` class, with the exact ECMAScript white-space set;
  - `split`, `split(/\s+/)` and `replace(/x/g, …)`;
  - `toLowerCase`, for ASCII and Latin-1;
  - `includes` and `endsWith`;
  - `StartsWith`, a prefix test the contracts use.
- `articles.dfy` — the parts shared by all variants:
  - the record;
  - the fetch outcome, as an input value;
  - the first-match `find`;
  - the choice of outcome.
- `article_page.dfy` — `WebLuciano/js/articles.js`.
- `site_main.dfy` — `WebLuciano/js/main.js`.
- `replica.dfy` — `replica-web/replica-web/js/main.js`.

How the environment is represented:

- **Fetch.** A fetch is an input: either rejected, or a response carrying its `ok` flag and the parsed body (`None` when the body does not parse as an array of articles). `Articles.Payload` gives the articles a script goes on with. Its flag says whether that script throws on a non-ok response.
- **Scripts that mutate state.** They become classes:
  - fields for the global state and for the DOM nodes involved;
  - `modifies` clauses on their methods;
  - methods whose `ensures` clauses give the whole new state.
- **DOM nodes** are told apart by numbers handed out once.
- **Timer callbacks** are separate methods the environment calls later. The exception is the 800 ms render delay in `loadArticleContent`, which the model runs at once.

Points where the code's behaviour is easy to misread:

- `fetchArticleById` (articles.js) and `renderArticleContent` (replica) never look at `response.ok`. A non-ok response with a JSON array body is searched like a good one. Only a rejected fetch or an unparsable body gives the error view.
- In the replica, a missing id and an unknown id write the same "no encontrado" text. The two cases are not distinct views there.
- The replica's tag table holds exactly four tags: Desarrollo, Diseño, Firebase and SwiftUI. Any other tag gets the default style, unless it is the name of a property every JavaScript object inherits (`constructor`, `toString`, …): the lookup then finds that property and the card shows `undefined` as its icon and class (see Findings).
- `main.js` takes no maximum with 1 in its reading time. The result is still at least 1, because `split(' ')` always yields one piece.

## Model

| member | source | states |
|---|---|---|
| Articles.Payload | WebLuciano/js/main.js:75-81 | the articles a script goes on with exist exactly when the fetch responded with a parsed body and, for a script that checks it, `ok` was true; they are that body |
| Articles.PayloadOkCheck | WebLuciano/js/articles.js:73-78 | a script that ignores `ok` agrees with one that checks it on ok responses and differs on a parsed non-ok one |
| Articles.FindIndex | WebLuciano/js/articles.js:77 | the position found holds the id and no earlier article does; none is found only when no article has the id |
| Articles.Find | WebLuciano/js/articles.js:73-78 | `find` returns an article exactly when one has the id, and then the first one with it |
| Articles.IconLabel | WebLuciano/js/articles.js:83 | the tag line `<i class="icon"></i> tag` holds both the icon class and the tag |
| Articles.FindOwnId | WebLuciano/js/main.js:143 | with unique ids, looking up an article's own id returns that article |
| Articles.FindIgnoresRest | replica-web/replica-web/js/main.js:152 | articles after the first match never influence the lookup |
| Articles.SelectOutcome | WebLuciano/js/articles.js:32-65 | no id iff the id is missing or empty; fetch error iff an id and a failed payload; not found iff no article has the id; found gives the first article with the id |
| Articles.HasId | WebLuciano/js/articles.js:35 | an id counts as given when the query parameter is present and not the empty string, as the truthiness tests `!articleId` and `if (articleId)` read it; no contract of its own |
| Articles.OwnIdIsFound | WebLuciano/js/articles.js:43-50 | with unique ids, the page for an article's own non-empty id finds that article |
| Text.TrimStart | WebLuciano/js/articles.js:177 | the result is never longer than the input |
| Text.TrimStartDropsBlankPrefix | WebLuciano/js/articles.js:177 | the result of `TrimStart` is a suffix of the input, what was dropped is all white space, and it starts with a non-white-space character or is empty |
| Text.TrimEnd | WebLuciano/js/articles.js:177 | the result is never longer than the input |
| Text.TrimEndDropsBlankSuffix | WebLuciano/js/articles.js:177 | the result of `TrimEnd` is a prefix of the input, what was dropped is all white space, and it ends with a non-white-space character or is empty |
| Text.Trim | WebLuciano/js/main.js:164 | the trimmed text is never longer than the input |
| Text.TrimBothEnds | WebLuciano/js/main.js:164 | the trimmed text has no white space at either end and is empty exactly when the input is blank |
| Text.TrimIdempotent | WebLuciano/js/main.js:164 | trimming twice is trimming once |
| Text.TrimStartOneGap | WebLuciano/js/articles.js:177 | dropping leading white space removes one white-space run and no word |
| Text.WordsAndGaps | WebLuciano/js/articles.js:177 | in a text ending in a word, words and white-space runs alternate |
| Text.WordsAppendWhitespace | WebLuciano/js/articles.js:177 | appending white space adds no word |
| Text.WordsOfTrim | WebLuciano/js/articles.js:177 | trimming keeps the number of words |
| Text.WordsOfTrimStart | WebLuciano/js/articles.js:177 | dropping leading white space keeps the number of words |
| Text.WordsOfTrimEnd | WebLuciano/js/articles.js:177 | dropping trailing white space keeps the number of words |
| Text.WordsConcat | WebLuciano/js/articles.js:177 | a word followed by white space and more text has one word more than that text |
| Text.SplitWhitespace | WebLuciano/js/articles.js:177 | `split(/\s+/)` yields at least one piece and no piece contains white space |
| Text.SplitWhitespaceCount | WebLuciano/js/articles.js:177 | `split(/\s+/)` yields one piece more than there are white-space runs |
| Text.SplitTrimCountsWords | WebLuciano/js/articles.js:177 | `trim().split(/\s+/).length` is the number of words, or 1 for a blank text |
| Text.Split | WebLuciano/js/main.js:163 | `split` on one character yields at least one piece |
| Text.SplitPiecesLackSeparator | WebLuciano/js/main.js:163 | no piece of a split contains the separator |
| Text.SplitOfSeparatorFirst | WebLuciano/js/main.js:163 | proof step for Text.SplitAround: a leading separator gives an empty first piece before the pieces of the rest |
| Text.SplitOfOtherFirst | WebLuciano/js/main.js:163 | proof step for Text.SplitAround: a leading non-separator character starts the first piece of the rest |
| Text.SplitCount | WebLuciano/js/main.js:171 | `split` on a character yields one piece more than there are separators |
| Text.JoinExtendFirst | replica-web/replica-web/js/main.js:162 | proof step for Text.ReplaceAllIsJoinOfSplit: joining pieces whose first piece is extended at the front extends the join at the front |
| Text.ReplaceAll | replica-web/replica-web/js/main.js:162 | `replace(/c/g, rep)` leaves no `c` when `rep` holds none, and changes nothing in a text without `c` |
| Text.ReplaceAllIsJoinOfSplit | replica-web/replica-web/js/main.js:162 | replacing every separator is splitting on it and joining with the replacement |
| Text.JoinSplit | WebLuciano/js/main.js:163 | joining the pieces of a split with the separator gives back the text |
| Text.SplitAround | WebLuciano/js/main.js:163 | the pieces of a text around its first separator are the pieces before it followed by those after it |
| Text.LowerChar | WebLuciano/js/main.js:86 | the result is not upper case; a capital moves to its small letter, anything else is kept |
| Text.ToLower | WebLuciano/js/main.js:86 | the same length, every character lowered |
| Text.ToLowerIdempotent | WebLuciano/js/main.js:86 | lowering twice is lowering once |
| Text.Includes | replica-web/replica-web/js/main.js:20 | true exactly when the part occurs at some position |
| Text.EndsWith | replica-web/replica-web/js/main.js:20 | `endsWith`: the suffix is the last characters of the string; a predicate with no contract of its own, used by RouteOf |
| ArticlePage.WordCount | WebLuciano/js/articles.js:176-177 | at least 1; the number of words, or 1 for a blank text |
| ArticlePage.ReadingMinutes | WebLuciano/js/articles.js:176-178 | `Math.max(1, Math.ceil(words / WORDS_PER_MINUTE))` with the setting of 200 (articles.js line 5): at least one minute, the fewest whole minutes in which 200 words a minute cover the words |
| ArticlePage.ReadingTime | WebLuciano/js/articles.js:172-184 | the minutes shown are at least 1 |
| ArticlePage.ReadingMinutesBands | WebLuciano/js/articles.js:178 | up to 200 words read in one minute, 201 to 400 in two; 400 exactly in two |
| ArticlePage.RepeatWord | WebLuciano/js/articles.js:177 | a sample body for WordsOfRepeatWord and RepeatedWordReadingTime, not an operation of the script: n copies of `word ` |
| ArticlePage.WordsOfRepeatWord | WebLuciano/js/articles.js:177 | the sample text of n words has n words |
| ArticlePage.RepeatedWordReadingTime | WebLuciano/js/articles.js:176-178 | a body of n words ending in a space counts n words; with exactly 400 it reads in 2 minutes |
| ArticlePage.ProgressWidth | WebLuciano/js/articles.js:193-199 | the width stays in [0, 100]; 0 when the page cannot scroll or is at the top; 100 at or past the end; in between it is the scrolled percentage |
| ArticlePage.FailurePage | WebLuciano/js/articles.js:445-453 | the load-failure page's button is not the way back |
| ArticlePage.ButtonIcon | WebLuciano/js/articles.js:428 | the icon is `arrow-left` exactly when the text is `Volver a artículos`, `refresh` otherwise |
| ArticlePage.PageOutcome | WebLuciano/js/articles.js:73-78 | the outcome is a load error exactly when an id is given and the fetch rejects or the body does not parse; `ok` is not consulted |
| ArticlePage.NoIdIssuesNoFetch | WebLuciano/js/articles.js:33-38 | without an id the outcome is NoId whatever the fetch would give |
| ArticlePage.Render | WebLuciano/js/articles.js:81-105 | the rendered title and date are the article's, the tag line holds its icon and tag, the body holds its content, the document title is `title \| Portfolio - Desarrollador iOS & Web`, and the reading time is that of its body |
| ArticlePage.ViewOf | WebLuciano/js/articles.js:435-453 | exactly a found article is rendered, and what is rendered is that article; an error page offers reload exactly for a load error |
| ArticlePage.FailureViewsDiffer | WebLuciano/js/articles.js:435-453 | no id and not found show the same page, which leads back; a load error shows a different page, which reloads |
| ArticlePage.ArticlePageState.constructor | WebLuciano/js/articles.js:12-15 | nothing is loading, no article is current, no loader is mounted |
| ArticlePage.ArticlePageState.ShowLoader | WebLuciano/js/articles.js:356-363 | nothing changes while loading or while a loader is mounted; otherwise one fresh loader is mounted and `isLoading` is set; at most one loader ever |
| ArticlePage.ArticlePageState.HideLoader | WebLuciano/js/articles.js:365-374 | the removal of the mounted loader, if any, is scheduled; nothing else changes yet |
| ArticlePage.ArticlePageState.RunPendingRemoval | WebLuciano/js/articles.js:369-372 | the scheduled removal takes its loader out of the document and clears `isLoading` |
| ArticlePage.ArticlePageState.LoadArticleContent | WebLuciano/js/articles.js:32-65 | the view is the one for the outcome of the id and fetch; `currentArticle` is set only for a found article; with an id a new loader is mounted only when none was loading or mounted, and the mounted loader's removal is scheduled; the loader flags and node numbers are otherwise kept |
| ArticlePage.WithShown | WebLuciano/js/articles.js:301 | only the given toast's `show` class changes |
| ArticlePage.Without | WebLuciano/js/articles.js:345 | the given toast is gone and every other toast remains |
| ArticlePage.NotificationSystem.constructor | WebLuciano/js/articles.js:292 | no toast and no style sheet yet |
| ArticlePage.NotificationSystem.Remove | WebLuciano/js/articles.js:348-351 | the first toast, if any, leaves the document |
| ArticlePage.NotificationSystem.Show | WebLuciano/js/articles.js:293-303 | afterwards the new toast is the only one, not yet shown, and the style sheet is installed |
| ArticlePage.NotificationSystem.Reveal | WebLuciano/js/articles.js:301 | the toast gets its `show` class if still present |
| ArticlePage.NotificationSystem.Hide | WebLuciano/js/articles.js:343-344 | the toast loses its `show` class |
| ArticlePage.NotificationSystem.Dismiss | WebLuciano/js/articles.js:345 | the toast leaves the document; at most one toast remains |
| ArticlePage.ButtonsCount | WebLuciano/js/articles.js:143 | a `pre` holds a copy button exactly when its button count is positive |
| ArticlePage.ButtonsAppend | WebLuciano/js/articles.js:168 | appending a child adds one to the count exactly when it is a button |
| ArticlePage.WithCopyButton | WebLuciano/js/articles.js:141-169 | a `pre` without a button gets exactly one, one with a button is unchanged; existing children are kept in front |
| ArticlePage.CopyButtonIdempotent | WebLuciano/js/articles.js:143 | adding the copy button twice is adding it once |
| ArticlePage.Pre.constructor | WebLuciano/js/articles.js:142 | a `pre` with its children, not yet positioned |
| ArticlePage.AddCopyButton | WebLuciano/js/articles.js:141-169 | a null parent is left alone; otherwise the children become `WithCopyButton` of the old ones and the `pre` is positioned when a button is added |
| SiteMain.TagClass | WebLuciano/js/main.js:86 | `tag-` followed by the tag, character by character lowered: the class has the tag's length plus four and no capital after the prefix |
| SiteMain.TagClassIgnoresCase | WebLuciano/js/main.js:86 | tags that differ only in case get the same class |
| SiteMain.TagClassOfLowerTag | WebLuciano/js/main.js:86 | a tag with no capital letter gets exactly `tag-` followed by the tag |
| SiteMain.CardHref | WebLuciano/js/main.js:90 | the link is `articles.html?id=` followed by exactly the id |
| SiteMain.ListingCard | WebLuciano/js/main.js:83-112 | a card links to its article's id and shows that article's icon, tag, title, date and excerpt, with the tag's class |
| SiteMain.Cards | WebLuciano/js/main.js:83-112 | one card per article, in order |
| SiteMain.CardLinksToItsArticle | WebLuciano/js/main.js:90 | with unique ids, a card's link carries its article's id, and the detail page for that id shows that article |
| SiteMain.ArticleList.constructor | WebLuciano/js/main.js:71 | the container with its static content |
| SiteMain.ArticleList.Populate | WebLuciano/js/main.js:74-121 | a failed, non-ok or unparsable fetch leaves only the error message; otherwise exactly one card per article, in order |
| SiteMain.LineHtml | WebLuciano/js/main.js:164 | a line becomes the empty string exactly when it is blank |
| SiteMain.LinesHtml | WebLuciano/js/main.js:163-164 | `map` of LineHtml over the lines, one piece per line in order; no contract of its own, its meaning is stated by LinesHtmlAreWrappedParagraphs |
| SiteMain.NonEmpty | WebLuciano/js/main.js:165 | `filter(p => p)`: the non-empty strings in order; no contract of its own, its meaning is stated by LinesHtmlAreWrappedParagraphs |
| SiteMain.Concat | WebLuciano/js/main.js:165 | `join('')`; no contract of its own, its meaning is stated by LinesHtmlAreWrappedParagraphs |
| SiteMain.TrimmedNonBlank | WebLuciano/js/main.js:163-165 | there are no more paragraphs than lines |
| SiteMain.LineParagraphIsParagraph | WebLuciano/js/main.js:164 | the paragraph a line gives, if any, is non-empty and trimmed |
| SiteMain.TrimmedNonBlankAreTrimmed | WebLuciano/js/main.js:163-165 | every paragraph is non-empty and trimmed |
| SiteMain.Paragraphs | WebLuciano/js/main.js:163-165 | the paragraphs of an article are non-empty and trimmed |
| SiteMain.LinesHtmlAreWrappedParagraphs | WebLuciano/js/main.js:163-165 | the map, filter and join of the lines is `<p>` around each trimmed non-blank line, in order |
| SiteMain.BodyHtml | WebLuciano/js/main.js:161-167 | the body holds one `<p>` per non-blank line, trimmed, in order, and nothing else |
| SiteMain.TrimmedNonBlankAppend | WebLuciano/js/main.js:163-165 | the paragraphs of two runs of lines are those of the first followed by those of the second |
| SiteMain.ParagraphsAroundBreak | WebLuciano/js/main.js:163-165 | the paragraphs before a line break come first, then those after it |
| SiteMain.ParagraphsOfLine | WebLuciano/js/main.js:163-165 | a single line gives no paragraph if blank, else its trimmed self |
| SiteMain.CountAbsent | WebLuciano/js/main.js:171 | a character absent from a text occurs zero times |
| SiteMain.SpaceWordCount | WebLuciano/js/main.js:171 | `split(' ').length` is the number of spaces plus one |
| SiteMain.SpaceReadingMinutes | WebLuciano/js/main.js:171-172 | at least one minute, and the fewest whole minutes that cover the word count at 200 a minute |
| SiteMain.Detail | WebLuciano/js/main.js:144-176 | the document title is `title \| Portfolio - Desarrollador iOS & Web`; the shown title and date are the article's, the tag line holds its icon and tag, the body is its wrapped paragraphs, and the reading time is `Math.ceil(split(' ').length / 200)` of its content |
| SiteMain.DetailFor | WebLuciano/js/main.js:127-214 | no id iff the id is missing or empty; a load error iff an id and a rejected, non-ok or unparsable fetch; not found iff no article has the id; shown iff found, and then the detail of the first article with the id |
| SiteMain.MissingIdIssuesNoFetch | WebLuciano/js/main.js:202-213 | without an id the view is the same whatever the fetch would give |
| SiteMain.LastCovering | WebLuciano/js/main.js:41-53 | the section found has `scrollY` in its band and no later section does; none found means no section does |
| SiteMain.Covers | WebLuciano/js/main.js:46 | the band test `scrollY > top && scrollY <= top + height` with `top = offsetTop - 100`; a predicate with no contract of its own, used by LastCovering |
| SiteMain.ActiveFor | WebLuciano/js/main.js:47-51 | a link is active exactly when its href is `#` followed by the id |
| SiteMain.NavLinks.constructor | WebLuciano/js/main.js:35 | the links with their hrefs and initial `active` classes |
| SiteMain.NavLinks.UpdateActiveNav | WebLuciano/js/main.js:37-55 | with no covering section (or no sections) the flags stay; otherwise only the links to the last covering section are active |
| Replica.Navbar.constructor | replica-web/replica-web/js/main.js:2 | the navbar starts without the scrolled class |
| Replica.Navbar.OnScroll | replica-web/replica-web/js/main.js:1-8 | the navbar carries `navbar-scrolled` exactly when `scrollY > 50` |
| Replica.RouteOf | replica-web/replica-web/js/main.js:20 | the home branch iff the path contains `index.html`, is `/` or ends in `/replica-web/`; otherwise the article branch iff it contains `article.html`; otherwise neither |
| Replica.HomeBeforeArticle | replica-web/replica-web/js/main.js:140 | a path ending in `index.html` takes the home branch, one ending in `article.html` takes a branch |
| Replica.TagStyleOf | replica-web/replica-web/js/main.js:13-18 | a configured tag gets its configured style, every other tag the default; it agrees with the code on every tag that is not an inherited property name |
| Replica.TagLookupIsCaseSensitive | replica-web/replica-web/js/main.js:103 | `SwiftUI` gets its style while `swiftui` and `Diseno` fall back to the default |
| Replica.TagStyleAsWritten | replica-web/replica-web/js/main.js:103 | the lookup as written: a configured tag gets its style, an inherited property name gets `undefined` icon and class, any other tag the default |
| Replica.InheritedKeyEscapesDefault | replica-web/replica-web/js/main.js:103 | as written, the unconfigured tag `constructor` gets neither a configured style nor the default, but `undefined` |
| Replica.ArticleCard | replica-web/replica-web/js/main.js:103-117 | the card links to `article.html?id=` followed by the id, shows the article's tag, title, date and excerpt, and carries the tag's style under the corrected lookup, which is the code's own on every tag that is not an inherited property name |
| Replica.Cards | replica-web/replica-web/js/main.js:102-119 | one card per article, in order |
| Replica.FetchedArticles | replica-web/replica-web/js/main.js:85-96 | `[]` on a rejected, non-ok or unparsable fetch, the parsed body otherwise |
| Replica.RandomIndex | replica-web/replica-web/js/main.js:127 | for a draw in [0, 1) the index lies in [0, n) |
| Replica.EveryArticleSelectable | replica-web/replica-web/js/main.js:127 | every position is picked by some draw |
| Replica.Home.constructor | replica-web/replica-web/js/main.js:86 | the container with its static content |
| Replica.Home.GetArticles | replica-web/replica-web/js/main.js:85-96 | returns the fetched articles, or `[]` with the error notice in the container |
| Replica.Home.RenderArticles | replica-web/replica-web/js/main.js:98-120 | the container ends with exactly one card per article, in order |
| Replica.Home.Start | replica-web/replica-web/js/main.js:133-137 | a failure leaves the notice, an empty collection leaves the container alone, otherwise every article is rendered |
| Replica.Home.RandomArticle | replica-web/replica-web/js/main.js:122-131 | with articles, exactly the one at the drawn position is rendered; without, nothing is rendered |
| Replica.PhraseCountIsLength | replica-web/replica-web/js/main.js:41-46 | there are four phrases |
| Replica.PhraseAfter | replica-web/replica-web/js/main.js:47 | the phrase index always lies in [0, 4) |
| Replica.PhraseAfterIsModulo | replica-web/replica-web/js/main.js:73 | after n erasures the index is n mod 4 |
| Replica.PhraseStep | replica-web/replica-web/js/main.js:73 | one more erasure moves the index to `(i + 1) % 4` |
| Replica.PhrasesInTurn | replica-web/replica-web/js/main.js:41-47 | any four consecutive cycles show four different phrases |
| Replica.PhrasesRepeat | replica-web/replica-web/js/main.js:73 | after four cycles the same phrase comes back |
| Replica.Typewriter.constructor | replica-web/replica-web/js/main.js:47 | the index starts at 0 |
| Replica.Typewriter.CurrentPhrase | replica-web/replica-web/js/main.js:50 | the phrase typed is one of the four |
| Replica.Typewriter.PhraseErased | replica-web/replica-web/js/main.js:72-75 | the index steps to `(i + 1) % 4`, keeping the cycle count's invariant |
| Replica.Body | replica-web/replica-web/js/main.js:162 | `<p>` around the content with each line break replaced by `</p><p>` is one `<p>` per line of the content |
| Replica.WrappedJoin | replica-web/replica-web/js/main.js:162 | `<p>` plus the pieces joined with `</p><p>` plus `</p>` is each piece inside its own `<p>` |
| Replica.BodyKeepsEveryLine | replica-web/replica-web/js/main.js:162 | the body is one `<p>` per line, empty lines included, and there are as many lines as line breaks plus one |
| Replica.RenderArticleContent | replica-web/replica-web/js/main.js:141-171 | nothing without the container; not found iff no id or no article with it; the error text iff the fetch rejects or the body does not parse; with the container, a found article is always rendered: its title, tag, date and one `<p>` per line, and the document title `title \| Luciano Nicolini` |
| Replica.MissingIdIssuesNoFetch | replica-web/replica-web/js/main.js:145-148 | without an id or a container the result is the same whatever the fetch would give |

## Left out

- Fetch and JSON transport: a network request and its parsing are an input value, not modelled behaviour.
- DOM writes, `querySelector` and listener registration. Output is a value: a view, an item list, a string.
- Element presence. The page elements a script looks up are taken to exist. The exceptions are the replica's `#article-content`, the `pre` parent of a code block, and `section[id]` being empty.
- `textContent` of the rendered article body. `calculateReadingTime` in articles.js reads the text of the rendered HTML. The model counts the words of the article's `content` string, assuming the markup adds no words.
- HTML escaping. The scripts interpolate data raw; the model concatenates strings as they do.
- Third-party libraries: highlight.js (`applyHighlightJS`, its loop over code blocks), Lenis, GSAP's repeat and onRepeat timing in `typePhrase` and `erasePhrase`, and Typed.js.
- Timer delays and animations: `animateContentEntry`, the loader's `fade-out` class, CSS transitions, and hover effects.
- The contents of the injected style sheets. Only that the notification style sheet is installed is kept.
- The clipboard feedback of the copy button, `shareArticle`, `copyToClipboard` and its `execCommand` fallback. These are foreign browser APIs.
- Mobile navigation, smooth scrolling, and the form-submit alert of `main.js`: menu toggling and browser scrolling with no data logic.
- The `main.js` progress bar. It divides by the scrollable height without a guard, so a page that cannot scroll produces NaN or Infinity, which is floating-point behaviour.
- ArticlePage.ProgressWidth: works on exact reals, so the floating-point rounding of the percentage is not modelled.
- ArticlePage.ReadingMinutes: computes `Math.ceil(words / 200)` exactly; the floating-point division cannot change it for the word counts of a page.
- Replica.RandomIndex: only the bound of the index for an abstract draw is modelled, not the uniformity of `Math.random`.
- SiteMain.Section: offsets and heights are integers. Fractional layout values are not modelled.
- Text.LowerChar, Text.ToLower: lower ASCII and Latin-1 capitals only. Other scripts' case mappings are not modelled.
- Code units. JavaScript strings are UTF-16 while Dafny characters are scalar values, so astral characters count once here. Every white-space character both use lies in the Basic Multilingual Plane.
- A stale loader removal. If `hideLoader` ran twice and `showLoader` remounted in between, an old removal could clear `isLoading` while a newer loader stays. Each page load hides once, so this ordering is modelled (`RunPendingRemoval`) but not ruled out.
- Replica.ArticleCard: builds the card on the corrected lookup TagStyleOf, so for a tag named after an inherited property (`constructor`, …) the card, and with it Cards, Home.RenderArticles, Home.Start and Home.RandomArticle, carries the default style where the code shows `undefined`; TagStyleAsWritten and InheritedKeyEscapesDefault keep the code's behaviour.
- A JSON body that parses but is not an array. The fetch's body is either an array of articles or `None`. In the replica `getArticles` returns whatever `response.json()` yields: an object such as `{}` renders nothing (its `length` is undefined), and a string empties the container and then throws in `forEach`. The model writes the load-failure notice for both.
- ArticlePage.ArticlePageState.LoadArticleContent: takes the delayed rendering to run without throwing. If `hljs.highlightElement` threw inside the 800 ms timer, `hideLoader` would be skipped and the loader would stay.
- ArticlePage.AddCopyButton: looks for an existing copy button among the direct children of the `pre`; `querySelector('.copy-code-btn')` would also find one nested deeper.
- SiteMain.NavLinks.UpdateActiveNav: takes `pageYOffset` as an integer, while browsers can report a fractional offset.
- Query-string encoding. A card's link writes the id into `?id=` unencoded and the detail page reads it back with `URLSearchParams.get('id')`; SiteMain.CardLinksToItsArticle passes the id itself as the query, so an id holding `&`, `#`, `+` or `%`, which would not come back unchanged, is not modelled.
- Console output: the `console.error` and `console.warn` logging of the three scripts is not modelled, as it changes no page state.
- `replica-web/js/main.js` (the outer copy) is not part of this model. It is a Typed.js configuration plus a navbar toggle that duplicates the inner script's lines 1-8.

## Findings

| source | as written | input that shows it | evidently intended | confidence | as-written member | corrected member |
|---|---|---|---|---|---|---|
| replica-web/replica-web/js/main.js:103 | `tagConfig[article.tag] \|\| default` reads through the object's prototype, so an inherited property name finds a truthy value with no `icon` or `class` | an article whose tag is `constructor` (or `toString`, `__proto__`, …) renders icon and class `undefined` | tags outside the four configured ones get the default style | high, not executed | Replica.InheritedKeyEscapesDefault | Replica.TagStyleOf |
