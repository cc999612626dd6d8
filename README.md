# sf-doc-extractor content pipeline, in Dafny

The model covers the three stages that turn a rendered documentation page
into Markdown:

- **The locator** (`DomPiercer`) picks the content root in four tiers:
  1. The `.main-container` (or `main`, or `[class*="main"]`) inside the two nested shadow roots of `doc-xml-content` and `doc-content`.
  2. The first of seven semantic selectors whose match has at least 500 characters of trimmed text and no cookie-consent wording.
  3. A keyword-scored scan of every `div`, `article` and `section`.
  4. The document body.
- **The sanitizer** (`Sanitizer`) deep-clones the root. It then removes junk tags and UI noise from the clone and makes relative `href`/`src` values absolute. It returns the clone's `innerHTML`.
- **The renderer** (`MarkdownConverter`) configures Turndown and adds three rules:
  - fenced code blocks tagged with the language from `language-…`;
  - callout boxes rendered as labelled block quotes;
  - suppression of empty anchors.

  `convert` puts a YAML frontmatter block (title, URL, fetch time) in front of Turndown's Markdown.

The modules are:

- `Dom`: the page as a value (elements, text, comments, open shadow roots).
  - `querySelector` / `querySelectorAll` are the first match / all matches in tree order.
  - `textContent`, `nodeName`, `firstChild` and `getAttribute`.
- `Strings`: the JavaScript string operations used (`includes`, `startsWith`, `trim`, `toLowerCase`).
- `DomPiercer`: the locator. It reads the page and changes nothing, so it is modelled on values.
  - The two loops (`attemptTier2` and the scoring loop of `attemptTier3`) are methods proved against the functions `Tier2From` and `Tier3Of`.
  - `extract` is a method proved against `ExtractOf`.
- `LiveDom`: DOM nodes as heap objects for the code that changes a tree in place. Each `LiveNode` carries the value it stands for (`model`) and its footprint (`Repr`). `cloneNode(true)` is a method.
- `Junk`, `Refs`: what junk removal and reference resolution do to a tree, as functions on values, with their laws.
- `Sanitizer`:
  - `clean` runs on `LiveNode`s. It clones, removes in place (`RemoveJunk`), then resolves in place (`ResolveBelow`).
  - `clean` has no `modifies` clause, so the element it is given is provably left unchanged.
  - Its result is tied to the value-level `CleanOf`.
- `Markdown`:
  - `MarkdownConverter` is a class whose constructor and `addSalesforceRules` update its `turndownService` configuration.
  - `convert` and the rule filters and replacements are functions.
  - Each output format has a parser next to it (`ReadDocument`, `ReadFence`, `ReadCallout`). Lemmas prove that the output reads back to what was put in.

The following are parameters of the model:

- Turndown's conversion (`turndown`);
- URL resolution (`new URL(ref, location.href).href`, with `None` for a throw);
- HTML serialization (`innerHTML`);
- the clock (the `fetched_at` string).

Where the code and what the repository's tests expect differ, the model follows the code:

- The locator's unit test (`src/content/dom-piercer.test.js:18-29`) has a `main` of 29 characters. Tier 2 rejects it because it needs 500, so `extract` returns the body, whose text still contains the test's sentence (`ExtractShortMainPage`).
- The tests call or expect steps that the code does not have; these are not modelled:
  - `flattenDom` on `DomPiercer` (`src/content/dom-piercer.test.js:4-16`);
  - flattening of `dl` and `ul` lists inside table cells during `clean` (`src/content/sanitizer.test.js:13-59`);
  - a Turndown rule that keeps `<br>` tags (`src/content/markdown.test.js:19-27`).

Two further points about the code as written:

- The callout label is found by substring. A class string containing "tip" anywhere gives "Tip", even inside `tooltip` (`TooltipWarningIsTip`).
- Link and image resolution is idempotent only when the URL resolver is: resolving a resolved URL against the same base gives it back (`Refs.Settles`). The WHATWG URL serializer has this property; the model takes it as the premise of `Refs.RewriteIdempotent`.

## Model

| member | source | states |
|---|---|---|
| Dom.FirstMatch | src/content/dom-piercer.js:83 | `querySelector` finds nothing exactly when no node matches, else the earliest match in tree order |
| Dom.FilterFacts | src/content/dom-piercer.js:97 | `querySelectorAll` returns exactly the matching nodes, each from the tree |
| Dom.FilterAppend | src/content/dom-piercer.js:97 | the matches keep tree order: those in an earlier part of the tree come before those in a later part |
| Dom.Body | src/content/dom-piercer.js:40 | `document.body`, when present, is a `body` or `frameset` element |
| Strings.ContainsIff | src/content/dom-piercer.js:113-120 | `includes` holds exactly when the needle occurs at some index |
| Strings.ContainsInContext | src/content/dom-piercer.js:144 | a substring of a part is a substring of any string containing that part |
| Strings.TrimFacts | src/content/dom-piercer.js:139 | `trim` leaves an infix with only whitespace around it, not starting or ending with whitespace, and empty exactly for all-whitespace text |
| DomPiercer.InnerTree | src/content/dom-piercer.js:49-53 | the inner shadow tree is found exactly when the first `doc-xml-content` has a shadow root whose first `doc-content` has one; it is that second shadow root's tree |
| DomPiercer.Tier1 | src/content/dom-piercer.js:47-65 | `attemptTier1` gives null when either host or its shadow root is missing; a result is a node of the inner tree matching one of the three container selectors, and null there means no node of it matches any |
| DomPiercer.InnerContainerOutcome | src/content/dom-piercer.js:56-60 | the container lookup succeeds exactly when some node of the inner tree matches, returns a matching node of it, and prefers `.main-container` over `main` over `[class*="main"]` |
| DomPiercer.InnerContainerFirst | src/content/dom-piercer.js:56-60 | the container is the first node in tree order matching the first of the three selectors that matches anything |
| DomPiercer.ValidateElement | src/content/dom-piercer.js:136-149 | an element that validates is present with non-empty text whose trimmed form is at least `minLength` long, not all whitespace when `minLength` is positive |
| DomPiercer.ValidateElementIff | src/content/dom-piercer.js:136-149 | an element validates exactly when it is present with non-empty text whose trimmed form is at least `minLength` long and, lower-cased, contains neither "accept all cookies" nor "privacy settings" |
| DomPiercer.ValidateMonotone | src/content/dom-piercer.js:140 | lowering the length threshold never rejects a validated element |
| DomPiercer.CookieConsentRejected | src/content/dom-piercer.js:142-146 | trimmed text containing "accept all cookies" or "privacy settings", in any letter case, fails validation at any length |
| DomPiercer.Tier2From | src/content/dom-piercer.js:82-89 | a Tier 2 result is an element whose trimmed text has at least 500 characters |
| DomPiercer.Tier2FromNone | src/content/dom-piercer.js:82-89 | Tier 2 finds nothing exactly when no selector's first match validates |
| DomPiercer.Tier2FromSome | src/content/dom-piercer.js:82-89 | otherwise it returns the first match of the earliest selector whose match validates |
| DomPiercer.AttemptTier2 | src/content/dom-piercer.js:71-90 | the loop with early return computes the Tier 2 choice |
| DomPiercer.Score | src/content/dom-piercer.js:104-120 | a score lies in [-150, 95]; above 40 it needs text longer than 1000 or "metadata api", and no "cookie" |
| DomPiercer.Rate | src/content/dom-piercer.js:105-120 | a candidate is skipped exactly when its text is shorter than 200; a rating above 40 needs text longer than 1000 or "metadata api" |
| DomPiercer.ScanFacts | src/content/dom-piercer.js:98-126 | the scan ends with the maximum of 0 and all scores, held by the earliest candidate reaching it |
| DomPiercer.Tier3Of | src/content/dom-piercer.js:96-129 | Tier 3 returns a rated candidate scoring above 40 that no candidate outscores and no earlier candidate equals, and nothing exactly when every score is at most 40 |
| DomPiercer.ScoreCandidates | src/content/dom-piercer.js:98-128 | the scoring loop computes the Tier 3 choice |
| DomPiercer.Tier3 | src/content/dom-piercer.js:96-129 | a Tier 3 result is a `div`, `article` or `section` |
| DomPiercer.AttemptTier3 | src/content/dom-piercer.js:96-129 | `div, article, section` candidates are fed to the scoring loop |
| DomPiercer.Extract | src/content/dom-piercer.js:16-41 | each tier runs only if every earlier one found nothing; the body is the fallback |
| DomPiercer.ExtractOf | src/content/dom-piercer.js:16-41 | the result is always an element; it is null exactly when all three tiers and the body give nothing, so never when there is a body; a Tier 2 result has at least 500 characters of trimmed text |
| DomPiercer.ShortMainPageTier1 | src/content/dom-piercer.test.js:18-29 | on the test page Tier 1 finds nothing |
| DomPiercer.ShortMainPageTier2 | src/content/dom-piercer.test.js:18-29 | on the test page Tier 2 rejects the short `main` |
| DomPiercer.ShortMainPageTier3 | src/content/dom-piercer.test.js:18-29 | on the test page Tier 3 has no candidates |
| DomPiercer.ShortMainPageText | src/content/dom-piercer.test.js:18-29 | the test page's body text contains "Primary documentation content" |
| DomPiercer.ExtractShortMainPage | src/content/dom-piercer.test.js:18-29 | on the test page `extract` returns the body, because every tier finds nothing, and its text contains "Primary documentation content" as the test expects |
| LiveDom.LiveNode.constructor | src/content/sanitizer.js:21 | a node built over disjoint child trees is a tree standing for its parts |
| LiveDom.LiveNode.CloneNode | src/content/sanitizer.js:21 | `cloneNode(true)` builds a fresh, disjoint tree standing for the original value without shadow roots |
| LiveDom.CloneAll | src/content/sanitizer.js:21 | the children are cloned into fresh, pairwise disjoint trees, one per child, in order |
| Junk.PruneNode | src/content/sanitizer.js:24-43 | removal keeps the node's kind, tag, attributes and shadow root and never adds children; a non-element is unchanged |
| Junk.PruneLeavesNone | src/content/sanitizer.js:26 | after removal nothing below the root matches the selectors |
| Junk.PruneKeeps | src/content/sanitizer.js:24-43 | a sibling that does not match stays, with junk removed below it |
| Junk.PruneCount | src/content/sanitizer.js:24-43 | exactly the matching siblings go: one result per sibling that does not match |
| Junk.PruneNoneMatch | src/content/sanitizer.js:42 | removal from a tree without matches changes nothing |
| Junk.PruneIdempotent | src/content/sanitizer.js:24-43 | a second removal pass removes nothing |
| Junk.PruneCompose | src/content/sanitizer.js:24-43 | two passes, one per selector list, equal one pass with both lists |
| Junk.PruneAppend | src/content/sanitizer.js:26 | removal keeps the order of the siblings it keeps |
| Junk.MatchesAppend | src/content/sanitizer.js:30-39 | a joined selector list matches what either part matches |
| Refs.Resolved | src/content/sanitizer.js:59-69 | only the rule's attribute changes; it gets the resolution when the value is non-empty, has no skipped prefix and resolves; otherwise it stays as it was |
| Refs.RewriteNode | src/content/sanitizer.js:56-89 | resolution keeps the node's kind, tag, attribute names, number of children and text |
| Refs.RewriteBelow | src/content/sanitizer.js:56-89 | resolving below the root is resolving the whole tree with the root's own attributes put back; the text is unchanged |
| Refs.RewriteKeepsRest | src/content/sanitizer.js:56-89 | resolution changes nothing but the rule's attribute on the rule's elements |
| Refs.RewriteFailing | src/content/sanitizer.js:66-68 | when every resolution throws, the tree is unchanged |
| Refs.RewriteIdempotent | src/content/sanitizer.js:56-89 | when resolving a resolution against the same base gives it back, a second pass changes nothing |
| Refs.RewriteKeepsMatches | src/content/sanitizer.js:47-48 | selectors not reading the rewritten attribute match a node exactly when they matched it before |
| Refs.RewriteKeepsNoneMatching | src/content/sanitizer.js:47-48 | resolution cannot bring junk back |
| Sanitizer.CleanOf | src/content/sanitizer.js:17-51 | the cleaned value keeps the root's kind, tag and attributes |
| Sanitizer.JunkIgnoresRefs | src/content/sanitizer.js:30-39 | no junk selector reads `href` or `src` |
| Sanitizer.CleanLeavesNoJunk | src/content/sanitizer.js:24-48 | a query on the cleaned element for the junk selectors, together or one by one, finds nothing |
| Sanitizer.CleanJunkIdempotent | src/content/sanitizer.js:24-43 | junk removal on the output of `clean` removes nothing |
| Sanitizer.CleanWithoutResolution | src/content/sanitizer.js:62-68 | when no reference resolves, `clean` only removes junk |
| Sanitizer.RemoveMatching | src/content/sanitizer.js:26 | one in-place pass leaves a tree standing for the old value without its matching descendants |
| Sanitizer.RemoveAll | src/content/sanitizer.js:26 | in-place removal among siblings keeps, in order, the non-matching ones with their own junk removed |
| Sanitizer.RemoveJunk | src/content/sanitizer.js:24-43 | the removal passes together leave the tree standing for the old value with every junk subtree below the root removed |
| Sanitizer.RemoveTags | src/content/sanitizer.js:24-27 | one in-place pass per tag name leaves the tree standing for the old value without the subtrees of those tags below the root |
| Sanitizer.RemoveEach | src/content/sanitizer.js:30-43 | one in-place pass per selector leaves the tree standing for the old value without the matching subtrees below the root |
| Sanitizer.ResolveNode | src/content/sanitizer.js:58-69 | a node and its subtree resolved in place stand for the resolved value |
| Sanitizer.ResolveAll | src/content/sanitizer.js:57-70 | each sibling resolved in place stands for its resolved value |
| Sanitizer.ResolveBelow | src/content/sanitizer.js:56-71 | `resolveLinks` / `resolveImages` leave the root's attributes alone and resolve every descendant |
| Sanitizer.Snapshot | src/content/sanitizer.js:50 | reading the cloned tree gives the value it stands for |
| Sanitizer.Clean | src/content/sanitizer.js:17-51 | null gives ""; otherwise the serialization of the cleaned value's children; the input is left unchanged |
| Sanitizer.CleanJunkPage | src/content/sanitizer.test.js:69-81 | the test page keeps the content `div` and the text between elements, and loses the cookie banner and the script |
| Sanitizer.CleanLinkPage | src/content/sanitizer.test.js:61-67 | the test link's `href` becomes its resolution |
| Markdown.MarkdownConverter.constructor | src/content/markdown.js:10-23 | the service uses ATX headings, fenced blocks, `*` emphasis and GFM, with the three rules |
| Markdown.MarkdownConverter.AddSalesforceRules | src/content/markdown.js:49-100 | the three rules are put in front of the existing ones; the last one added is consulted first |
| Markdown.MarkdownConverter.Convert | src/content/markdown.js:30-47 | absent or empty markup gives ""; otherwise the output starts with the frontmatter delimiter and ends with Turndown's Markdown |
| Markdown.TitleText | src/content/markdown.js:38 | the title line shows the title, or "Untitled" when it is missing or empty |
| Markdown.Frontmatter | src/content/markdown.js:36-44 | the frontmatter opens with a `---` line and ends with a `---` line and a blank line |
| Markdown.FrontmatterLines | src/content/markdown.js:36-44 | the joined seven lines are the delimiter, three field lines, the delimiter and a blank line |
| Markdown.ReadDocument | src/content/markdown.js:36-46 | what the frontmatter reader accepts is a frontmatter block followed by a body |
| Markdown.FrontmatterReadsBack | src/content/markdown.js:36-46 | a frontmatter block of one-line values followed by any text reads back as those values and that text |
| Markdown.ConvertReadsBack | src/content/markdown.js:33-46 | `convert`'s output reads back as the title, URL and timestamp it was given, followed by exactly Turndown's Markdown |
| Markdown.ConvertShowsFields | src/content/markdown.test.js:4-17 | the output contains the title line, the URL line and Turndown's Markdown |
| Markdown.FindLanguage | src/content/markdown.js:64 | the regular expression's leftmost match: nothing exactly when "language-" is never followed by a non-space |
| Markdown.Language | src/content/markdown.js:62-64 | the language is the maximal non-whitespace run after the leftmost match, "" exactly when there is no match |
| Markdown.LanguageOfToken | src/content/markdown.js:64 | a class list starting `language-T` yields T, whatever classes follow |
| Markdown.FencedFilter | src/content/markdown.js:53-59 | the filter accepts only an element whose first child is an element, and never a `pre` whose first child is text |
| Markdown.FencedReplacement | src/content/markdown.js:61-70 | the replacement opens with a blank line and the fence and closes with the fence and a blank line |
| Markdown.ReadFence | src/content/markdown.js:66-69 | what the fence reader accepts is a fenced block with a one-line info string |
| Markdown.FenceReadsBack | src/content/markdown.js:66-69 | any fenced block whose info string is one line reads back as that info string and the code between the fences, verbatim |
| Markdown.FencedReadsBack | src/content/markdown.js:60-70 | the fenced block reads back as the language and the code's raw text, verbatim |
| Markdown.ApexBlock | src/content/markdown.test.js:29-38 | the test's `pre > code.language-apex` passes the filter and becomes an `apex` block holding the code unchanged |
| Markdown.CalloutFilter | src/content/markdown.js:77-81 | the filter accepts only a `DIV` whose class contains "box-" |
| Markdown.CalloutLabel | src/content/markdown.js:84-87 | the label is one of three; "Tip" exactly when the class contains "tip"; "Warning" exactly when it contains "warning" and not "tip" |
| Markdown.CalloutMarkers | src/content/markdown.js:77-87 | a `box-tip` is a tip, a `box-warning` without "tip" is a warning, a `box-info` without "warning" or "tip" is a note |
| Markdown.TooltipWarningIsTip | src/content/markdown.js:84-87 | "box-warning tooltip" is labelled a tip |
| Markdown.CalloutReplacement | src/content/markdown.js:82-90 | the replacement opens a block quote with a bold label and ends with a blank line |
| Markdown.ReadCallout | src/content/markdown.js:89 | what the callout reader accepts is a labelled block quote |
| Markdown.QuoteReadsBack | src/content/markdown.js:89 | a labelled block quote whose label has no colon reads back as that label and the text after it |
| Markdown.CalloutReadsBack | src/content/markdown.js:82-90 | the callout reads back as its label and the trimmed content, which has no whitespace at either end |
| Markdown.EmptyLinkFilter | src/content/markdown.js:95-97 | the filter holds exactly for an `A` with a non-empty `href` and whitespace-only text |
| Markdown.RuleFor | src/content/markdown.js:49-100 | the rule chosen is an added rule that accepts the node; none exactly when no added rule does |
| Markdown.FiltersExclusive | src/content/markdown.js:53-96 | no node passes two of the three filters |
| Markdown.RuleForAnyOrder | src/content/markdown.js:49-100 | in any order of the three rules, the one chosen is exactly the one whose filter accepts the node |
| Markdown.ConverterDispatch | src/content/markdown.js:49-100 | in a new converter an empty link gets the empty-link rule and becomes "", a callout gets the callout rule and reads back as its label and trimmed content, a code block gets the fence rule and reads back as its language and code |

## Left out

- Turndown and its GFM plugin: the base conversion is the `turndown` parameter, and how Turndown applies a rule's replacement to converted content is not modelled. Turndown's default fence "```" is taken as the `fence` option.
- URL resolution (`new URL`): a parameter returning `None` where the constructor throws. WHATWG URL parsing is not modelled.
- `innerHTML` serialization: a parameter of `Sanitizer.Clean`.
- The clock: `fetched_at` is a parameter instead of `new Date().toISOString()`.
- Logging (`console.log`, `console.warn`, `console.error`), and the `logPrefix`, `baseUrl` and `currentPath` fields, which nothing reads.
- The try/catch of `attemptTier1`: the modelled queries cannot throw.
- DomPiercer.ScoreCandidates: the `SCRIPT`/`STYLE` skip is not modelled. The candidate query selects only `div`, `article` and `section`, so that branch never runs.
- Strings: lower-casing covers ASCII letters only. Lengths count code points, not UTF-16 code units.
- Dom: closed shadow roots, namespaces and quirks-mode class matching are not modelled. A selector in `Dom.Selector` is one type, class, `[a="v"]` or `[a*="v"]` selector.
- LiveDom.LiveNode.CloneNode: the clone drops shadow roots. The browser does not clone a shadow root unless it was made clonable.
- Sanitizer.RemoveMatching: removed subtrees stay in the node's `Repr`. The footprint never shrinks, but removed objects are no longer reachable from `children` or `model`.
- Sanitizer.RemoveJunk: each `querySelectorAll(sel).forEach(remove)` pass is one recursive in-place pass. The order in which the matched nodes are detached is not modelled; the resulting tree is the same.
- Sanitizer.Clean: requires an element, as documented in `clean`'s JSDoc (`@param {HTMLElement}`). A text or comment node is not accepted.
- DomPiercer.ValidateElement: `minLength` is always passed; the default of 200 is not modelled, because the only call passes 500.
- Markdown.ConverterDispatch: Turndown gives a blank node (such as a whitespace-only callout `div` or a `pre` whose code is only whitespace) to its own blank rule before it consults any added rule. That rule is part of Turndown and is not modelled, so the callout and fence clauses hold only for nodes that reach the added rules.
- Markdown.MarkdownConverter.Convert: `html` is an optional string. Other falsy values of `html` and a `metadata` object without `url` are covered by `Option`, but non-string values are not.
- The `index.js` orchestration, the popup, and the build and test configuration are not part of this model.
