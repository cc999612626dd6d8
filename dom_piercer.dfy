/**
  The content locator (`DomPiercer`): four strategies tried in a fixed order
  to find the element that holds a page's documentation.

  1. A lookup through two nested shadow roots (`doc-xml-content` and then
     `doc-content`) for the inner content container.
  2. A fixed list of semantic selectors, each result accepted only when it
     carries at least 500 characters of trimmed text and no cookie wording.
  3. A scan of every `div`, `article` and `section` scored by text length and
     keywords, keeping the first candidate with the highest score, accepted
     only above 40 points.
  4. The document body.
 */
module DomPiercer {
  import opened Wrappers
  import opened Strings
  import opened Dom

  // ---------------------------------------------------------------------
  // Tier 1: the nested shadow roots of the documentation viewer
  // ---------------------------------------------------------------------

  const OuterHost: Selector := Type("doc-xml-content")
  const InnerHost: Selector := Type("doc-content")

  /** The three container selectors, in the order Tier 1 tries them. */
  const ContainerSelectors: seq<Selector> :=
    [Class("main-container"), Type("main"), AttrContains("class", "main")]

  /** In tree order over `ns`, the first node that `sel` matches is an
      element whose open shadow root holds `inner`. */
  ghost predicate FirstHostHas(ns: seq<Node>, sel: Selector, inner: seq<Node>) {
    exists k :: 0 <= k < |Preorder(ns)| && Matches([sel], Preorder(ns)[k])
      && (forall j :: 0 <= j < k ==> !Matches([sel], Preorder(ns)[j]))
      && Preorder(ns)[k].shadow == ShadowRoot(inner)
  }

  /** That is what `root.querySelector(sel)` followed by `.shadowRoot` sees. */
  lemma FirstHostIff(ns: seq<Node>, sel: Selector)
    ensures forall inner {:trigger FirstHostHas(ns, sel, inner)} :: FirstHostHas(ns, sel, inner) <==>
      (QuerySelector(ns, [sel]).Some? && QuerySelector(ns, [sel]).value.Element?
       && QuerySelector(ns, [sel]).value.shadow == ShadowRoot(inner))
  {
    var tree := Preorder(ns);
    var q := QuerySelector(ns, [sel]);
    forall inner
      ensures FirstHostHas(ns, sel, inner) <==> (q.Some? && q.value.Element? && q.value.shadow == ShadowRoot(inner))
    {
      if FirstHostHas(ns, sel, inner) {
        var k :| 0 <= k < |tree| && Matches([sel], tree[k])
          && (forall j :: 0 <= j < k ==> !Matches([sel], tree[j]))
          && tree[k].shadow == ShadowRoot(inner);
        assert q.Some?;
        var m :| 0 <= m < |tree| && tree[m] == q.value && Matches([sel], tree[m])
          && forall j :: 0 <= j < m ==> !Matches([sel], tree[j]);
        assert m == k;
      }
      if q.Some? && q.value.Element? && q.value.shadow == ShadowRoot(inner) {
        var m :| 0 <= m < |tree| && tree[m] == q.value && Matches([sel], tree[m])
          && forall j :: 0 <= j < m ==> !Matches([sel], tree[j]);
        assert tree[m].shadow == ShadowRoot(inner);
      }
    }
  }

  /** The child nodes of the inner shadow root: found exactly when the
      first `doc-xml-content` in tree order has an open shadow root whose
      first `doc-content` has one too. */
  function InnerTree(doc: Document): (r: Option<seq<Node>>)
    ensures r.Some? ==> exists mids :: FirstHostHas(doc.nodes, OuterHost, mids) && FirstHostHas(mids, InnerHost, r.value)
    ensures forall mids, inner :: FirstHostHas(doc.nodes, OuterHost, mids) && FirstHostHas(mids, InnerHost, inner)
              ==> r == Some(inner)
  {
    FirstHostIff(doc.nodes, OuterHost);
    match QuerySelector(doc.nodes, [OuterHost])
    case None => None
    case Some(root) =>
      if root.Element? && root.shadow.ShadowRoot? then
        FirstHostIff(root.shadow.nodes, InnerHost);
        match QuerySelector(root.shadow.nodes, [InnerHost])
        case None => None
        case Some(mid) =>
          if mid.Element? && mid.shadow.ShadowRoot? then
            assert FirstHostHas(doc.nodes, OuterHost, root.shadow.nodes);
            Some(mid.shadow.nodes)
          else None
      else None
  }

  /** `querySelector('.main-container') || querySelector('main') ||
      querySelector('[class*="main"]')` inside the inner shadow root. */
  function InnerContainer(ns: seq<Node>): Option<Node> {
    OrElse(QuerySelector(ns, [ContainerSelectors[0]]),
      OrElse(QuerySelector(ns, [ContainerSelectors[1]]),
        QuerySelector(ns, [ContainerSelectors[2]])))
  }

  /** `attemptTier1`: nothing unless the two shadow roots are there; then a
      container-matching node of the inner tree, found whenever one exists. */
  function Tier1(doc: Document): (r: Option<Node>)
    ensures r.Some? ==> InnerTree(doc).Some? && r.value in Preorder(InnerTree(doc).value)
                        && Matches(ContainerSelectors, r.value)
    ensures InnerTree(doc).Some? && r.None? ==>
              forall k :: 0 <= k < |Preorder(InnerTree(doc).value)|
                ==> !Matches(ContainerSelectors, Preorder(InnerTree(doc).value)[k])
  {
    var t := InnerTree(doc);
    if t.None? then None
    else
      InnerContainerOutcome(t.value);
      InnerContainer(t.value)
  }

  lemma MatchesSingle(s: Selector, x: Node)
    ensures Matches([s], x) <==> x.Element? && MatchesElement(s, x.tag, x.attrs)
  {
    if x.Element? && MatchesElement(s, x.tag, x.attrs) {
      assert [s][0] == s;
    }
  }

  lemma MatchesContainer(x: Node)
    ensures Matches(ContainerSelectors, x) <==>
      Matches([ContainerSelectors[0]], x) || Matches([ContainerSelectors[1]], x) || Matches([ContainerSelectors[2]], x)
  {
    MatchesSingle(ContainerSelectors[0], x);
    MatchesSingle(ContainerSelectors[1], x);
    MatchesSingle(ContainerSelectors[2], x);
  }

  /** What the container lookup finds in a tree: an element of it matching
      one of the container selectors, found whenever one exists, with
      `.main-container` preferred over `main`, and `main` over a class
      attribute merely containing "main". */
  lemma InnerContainerOutcome(ns: seq<Node>)
    ensures InnerContainer(ns).Some? <==>
      exists k :: 0 <= k < |Preorder(ns)| && Matches(ContainerSelectors, Preorder(ns)[k])
    ensures InnerContainer(ns).Some? ==>
      InnerContainer(ns).value in Preorder(ns) && Matches(ContainerSelectors, InnerContainer(ns).value)
    ensures InnerContainer(ns).Some? && !Matches([ContainerSelectors[0]], InnerContainer(ns).value) ==>
      forall k :: 0 <= k < |Preorder(ns)| ==> !Matches([ContainerSelectors[0]], Preorder(ns)[k])
    ensures (InnerContainer(ns).Some? && !Matches([ContainerSelectors[0]], InnerContainer(ns).value)
      && !Matches([ContainerSelectors[1]], InnerContainer(ns).value)) ==>
      forall k :: 0 <= k < |Preorder(ns)| ==> !Matches([ContainerSelectors[1]], Preorder(ns)[k])
  {
    var tree := Preorder(ns);
    forall k | 0 <= k < |tree|
      ensures Matches(ContainerSelectors, tree[k]) <==>
        Matches([ContainerSelectors[0]], tree[k]) || Matches([ContainerSelectors[1]], tree[k]) || Matches([ContainerSelectors[2]], tree[k])
    {
      MatchesContainer(tree[k]);
    }
    if InnerContainer(ns).Some? {
      var x := InnerContainer(ns).value;
      MatchesContainer(x);
      var k :| 0 <= k < |tree| && tree[k] == x && Matches(ContainerSelectors, tree[k]);
      assert 0 <= k < |Preorder(ns)| && Matches(ContainerSelectors, Preorder(ns)[k]);
      var first := QuerySelector(ns, [ContainerSelectors[0]]);
      var second := QuerySelector(ns, [ContainerSelectors[1]]);
      if first.Some? {
        assert x == first.value && Matches([ContainerSelectors[0]], x);
      } else if second.Some? {
        assert x == second.value && Matches([ContainerSelectors[1]], x);
      }
    } else {
      assert QuerySelector(ns, [ContainerSelectors[0]]).None?;
      assert QuerySelector(ns, [ContainerSelectors[1]]).None?;
      assert QuerySelector(ns, [ContainerSelectors[2]]).None?;
      assert forall k :: 0 <= k < |tree| ==> !Matches(ContainerSelectors, tree[k]);
    }
  }

  /** More precisely, the container is the first node in tree order that
      matches the first container selector matching anything at all. */
  lemma InnerContainerFirst(ns: seq<Node>)
    requires InnerContainer(ns).Some?
    ensures exists i, k :: (0 <= i < 3 && 0 <= k < |Preorder(ns)|
      && InnerContainer(ns).value == Preorder(ns)[k]
      && Matches([ContainerSelectors[i]], Preorder(ns)[k])
      && (forall j :: 0 <= j < k ==> !Matches([ContainerSelectors[i]], Preorder(ns)[j]))
      && (forall i2, j :: 0 <= i2 < i && 0 <= j < |Preorder(ns)| ==> !Matches([ContainerSelectors[i2]], Preorder(ns)[j])))
  {
    var tree := Preorder(ns);
    var first := QuerySelector(ns, [ContainerSelectors[0]]);
    var second := QuerySelector(ns, [ContainerSelectors[1]]);
    var i := if first.Some? then 0 else if second.Some? then 1 else 2;
    var q := QuerySelector(ns, [ContainerSelectors[i]]);
    assert q == InnerContainer(ns);
    var k :| 0 <= k < |tree| && tree[k] == q.value && Matches([ContainerSelectors[i]], tree[k])
      && forall j :: 0 <= j < k ==> !Matches([ContainerSelectors[i]], tree[j]);
    assert forall i2, j :: 0 <= i2 < i && 0 <= j < |tree| ==> !Matches([ContainerSelectors[i2]], tree[j]);
  }

  // ---------------------------------------------------------------------
  // validateElement
  // ---------------------------------------------------------------------

  /** `validateElement(el, minLength)`: present, non-empty text whose trimmed
      form is at least `minLength` long and mentions neither "accept all
      cookies" nor "privacy settings" in any letter case. */
  function ValidateElement(el: Option<Node>, minLength: int): (r: bool)
    ensures r ==> el.Some? && TextContent(el.value) != "" && |TextContent(el.value)| >= minLength
    ensures r ==> |Trim(TextContent(el.value))| >= minLength
    ensures r && minLength > 0 ==> !AllWhitespace(TextContent(el.value))
  {
    if el.None? || TextContent(el.value) == "" then false
    else
      var text := Trim(TextContent(el.value));
      if |text| < minLength then false
      else
        var lower := ToLower(text);
        !(Contains(lower, "accept all cookies") || Contains(lower, "privacy settings"))
  }

  /** Neither consent phrase occurs anywhere in `lower`. */
  ghost predicate ConsentFree(lower: string) {
    forall i :: !OccursAt(lower, "accept all cookies", i) && !OccursAt(lower, "privacy settings", i)
  }

  /** The whole rule, both ways: an element validates exactly when it is
      present with non-empty text whose trimmed form is at least
      `minLength` long and, lower-cased, holds neither consent phrase. */
  lemma ValidateElementIff(el: Option<Node>, minLength: int)
    ensures ValidateElement(el, minLength) <==>
              && el.Some? && TextContent(el.value) != ""
              && |Trim(TextContent(el.value))| >= minLength
              && ConsentFree(ToLower(Trim(TextContent(el.value))))
  {
    if el.Some? {
      var lower := ToLower(Trim(TextContent(el.value)));
      ContainsIff(lower, "accept all cookies");
      ContainsIff(lower, "privacy settings");
    }
  }

  /** Lowering the length threshold never rejects an element that passed. */
  lemma ValidateMonotone(el: Option<Node>, minLength: int, smaller: int)
    requires smaller <= minLength
    requires ValidateElement(el, minLength)
    ensures ValidateElement(el, smaller)
  {
  }

  /** Text mentioning "accept all cookies" or "privacy settings", in any
      letter case, is rejected whatever its length. */
  lemma CookieConsentRejected(el: Node, minLength: int, before: string, p: string, after: string)
    requires Trim(TextContent(el)) == before + p + after
    requires ToLower(p) == "accept all cookies" || ToLower(p) == "privacy settings"
    ensures !ValidateElement(Some(el), minLength)
  {
    var text := Trim(TextContent(el));
    var lower := ToLower(text);
    var i := |before|;
    assert lower[i..i + |p|] == ToLower(p) by {
      forall k | 0 <= k < |p| ensures lower[i + k] == ToLower(p)[k] {
        assert text[i + k] == p[k];
      }
    }
    assert OccursAt(lower, ToLower(p), i);
    ContainsIff(lower, ToLower(p));
  }

  // ---------------------------------------------------------------------
  // Tier 2: direct semantic selectors
  // ---------------------------------------------------------------------

  const Tier2Selectors: seq<Selector> := [
    Type("main"),
    AttrEquals("role", "main"),
    Class("content"),
    Class("article-content"),
    Class("help-content"),
    Type("article"),
    Class("body")
  ]

  const Tier2MinLength: int := 500

  /** The first match of `sel` in the document is long enough for Tier 2. */
  predicate Tier2Accepts(doc: Document, sel: Selector) {
    ValidateElement(QuerySelector(doc.nodes, [sel]), Tier2MinLength)
  }

  /** The first match of the first selector of `sels` whose match validates. */
  function Tier2From(doc: Document, sels: seq<Selector>): (r: Option<Node>)
    ensures r.Some? ==> r.value.Element? && |Trim(TextContent(r.value))| >= Tier2MinLength
  {
    if sels == [] then None
    else
      if Tier2Accepts(doc, sels[0]) then QuerySelector(doc.nodes, [sels[0]])
      else Tier2From(doc, sels[1..])
  }

  /** Tier 2 yields nothing exactly when no selector's match validates. */
  lemma {:induction false} Tier2FromNone(doc: Document, sels: seq<Selector>)
    ensures Tier2From(doc, sels).None? <==> forall k :: 0 <= k < |sels| ==> !Tier2Accepts(doc, sels[k])
  {
    if sels != [] && !Tier2Accepts(doc, sels[0]) {
      Tier2FromNone(doc, sels[1..]);
      assert forall k :: 1 <= k < |sels| ==> sels[k] == sels[1..][k - 1];
    }
  }

  /** Otherwise it yields the match of the earliest selector whose match
      validates. */
  lemma Tier2FromSome(doc: Document, sels: seq<Selector>)
    requires Tier2From(doc, sels).Some?
    ensures exists k :: 0 <= k < |sels|
              && Tier2From(doc, sels) == QuerySelector(doc.nodes, [sels[k]])
              && Tier2Accepts(doc, sels[k])
              && forall j :: 0 <= j < k ==> !Tier2Accepts(doc, sels[j])
  {
    var k := EarliestAccepted(doc, sels);
  }

  /** The earliest selector whose match validates, and the match Tier 2
      yields through it. */
  lemma {:induction false} EarliestAccepted(doc: Document, sels: seq<Selector>) returns (k: nat)
    requires Tier2From(doc, sels).Some?
    ensures k < |sels| && Tier2Accepts(doc, sels[k])
    ensures forall j :: 0 <= j < k ==> !Tier2Accepts(doc, sels[j])
    ensures Tier2From(doc, sels) == QuerySelector(doc.nodes, [sels[k]])
    decreases |sels|
  {
    if Tier2Accepts(doc, sels[0]) {
      k := 0;
    } else {
      var rest := sels[1..];
      var k' := EarliestAccepted(doc, rest);
      k := k' + 1;
      assert sels[k] == rest[k'];
      forall j | 1 <= j < k
        ensures !Tier2Accepts(doc, sels[j])
      {
        assert sels[j] == rest[j - 1];
      }
      assert Tier2From(doc, sels) == Tier2From(doc, rest);
    }
  }

  function Tier2(doc: Document): Option<Node> {
    Tier2From(doc, Tier2Selectors)
  }

  /** `attemptTier2`: the selector loop with its early return. */
  method AttemptTier2(doc: Document) returns (r: Option<Node>)
    ensures r == Tier2(doc)
  {
    var selectors := Tier2Selectors;
    for i := 0 to |selectors|
      invariant Tier2From(doc, selectors[i..]) == Tier2(doc)
    {
      assert selectors[i..][1..] == selectors[i + 1..];
      var el := QuerySelector(doc.nodes, [selectors[i]]);
      if ValidateElement(el, Tier2MinLength) {
        return el;
      }
    }
    return None;
  }

  // ---------------------------------------------------------------------
  // Tier 3: heuristic scan
  // ---------------------------------------------------------------------

  const Tier3Selectors: seq<Selector> := [Type("div"), Type("article"), Type("section")]
  const MinCandidateLength: int := 200
  const LongTextLength: int := 1000
  const AcceptScore: int := 40

  /** `document.querySelectorAll('div, article, section')` */
  function Candidates(doc: Document): seq<Node> {
    QuerySelectorAll(doc.nodes, Tier3Selectors)
  }

  /** The score of a candidate's text: from -150 to 95, and above the
      40-point threshold only with a long text or a mention of "metadata
      api", and no mention of cookies. */
  function Score(text: string): (r: int)
    ensures -150 <= r <= 95
    ensures r > AcceptScore ==> |text| > LongTextLength || Contains(ToLower(text), "metadata api")
    ensures r > AcceptScore ==> !Contains(ToLower(text), "cookie")
  {
    var lower := ToLower(text);
    (if |text| > LongTextLength then 50 else 0)
    + (if Contains(lower, "metadata api") then 20 else 0)
    + (if Contains(lower, "class") then 10 else 0)
    + (if Contains(lower, "apex") then 10 else 0)
    + (if Contains(lower, "xml") then 5 else 0)
    - (if Contains(lower, "cookie") then 100 else 0)
    - (if Contains(lower, "privacy policy") then 50 else 0)
  }

  /** A candidate's rating: skipped (null) when its untrimmed text is shorter
      than 200, its score otherwise. */
  function Rate(el: Node): (r: Option<int>)
    ensures r.None? <==> |TextContent(el)| < MinCandidateLength
    ensures r.Some? && r.value > AcceptScore ==>
              |TextContent(el)| > LongTextLength || Contains(ToLower(TextContent(el)), "metadata api")
  {
    var text := TextContent(el);
    if |text| < MinCandidateLength then None else Some(Score(text))
  }

  function Ratings(cands: seq<Node>): (rs: seq<Option<int>>)
    ensures |rs| == |cands|
    ensures forall k :: 0 <= k < |cands| ==> rs[k] == Rate(cands[k])
  {
    seq(|cands|, k requires 0 <= k < |cands| => Rate(cands[k]))
  }

  /** The scan's running state: `bestCandidate` and `maxScore`. */
  datatype Best = Best(candidate: Option<Node>, maxScore: int)

  /** One loop iteration: a strictly higher score replaces the best so far. */
  function Step(b: Best, el: Node, rating: Option<int>): Best {
    if rating.None? then b
    else if rating.value > b.maxScore then Best(Some(el), rating.value)
    else b
  }

  /** The state after scanning `cands`, rated `rs`, from `Best(null, 0)`. */
  function Scan(cands: seq<Node>, rs: seq<Option<int>>): Best
    requires |rs| == |cands|
  {
    if cands == [] then Best(None, 0)
    else
      var n := |cands| - 1;
      Step(Scan(cands[..n], rs[..n]), cands[n], rs[n])
  }

  /** The scan ends with the maximum of 0 and every score, held by the
      earliest candidate reaching it. */
  lemma {:induction false} ScanFacts(cands: seq<Node>, rs: seq<Option<int>>)
    requires |rs| == |cands|
    ensures Scan(cands, rs).maxScore >= 0
    ensures forall j :: 0 <= j < |rs| && rs[j].Some? ==> rs[j].value <= Scan(cands, rs).maxScore
    ensures Scan(cands, rs).candidate.None? ==> Scan(cands, rs).maxScore == 0
    ensures Scan(cands, rs).candidate.Some? ==> exists k :: (0 <= k < |rs|
      && cands[k] == Scan(cands, rs).candidate.value && rs[k] == Some(Scan(cands, rs).maxScore)
      && Scan(cands, rs).maxScore > 0
      && forall j :: 0 <= j < k && rs[j].Some? ==> rs[j].value < Scan(cands, rs).maxScore)
    decreases |cands|
  {
    if cands != [] {
      var n := |cands| - 1;
      ScanFacts(cands[..n], rs[..n]);
      assert forall j :: 0 <= j < n ==> cands[..n][j] == cands[j] && rs[..n][j] == rs[j];
    }
  }

  /** `maxScore > 40 ? bestCandidate : null`: the earliest candidate with the
      highest score, if that score is above 40. */
  function Tier3Of(cands: seq<Node>): (r: Option<Node>)
    ensures r.Some? ==> exists k :: (0 <= k < |cands|
      && cands[k] == r.value && Rate(cands[k]).Some? && Rate(cands[k]).value > AcceptScore
      && (forall j :: 0 <= j < |cands| && Rate(cands[j]).Some? ==> Rate(cands[j]).value <= Rate(cands[k]).value)
      && (forall j :: 0 <= j < k && Rate(cands[j]).Some? ==> Rate(cands[j]).value < Rate(cands[k]).value))
    ensures r.None? <==> forall j :: 0 <= j < |cands| && Rate(cands[j]).Some? ==> Rate(cands[j]).value <= AcceptScore
  {
    var b := Scan(cands, Ratings(cands));
    ScanFacts(cands, Ratings(cands));
    if b.maxScore > AcceptScore then b.candidate else None
  }

  /** Tier 3 returns a `div`, an `article` or a `section`. */
  function Tier3(doc: Document): (r: Option<Node>)
    ensures r.Some? ==> Matches(Tier3Selectors, r.value)
  {
    FilterFacts(Preorder(doc.nodes), Tier3Selectors);
    Tier3Of(Candidates(doc))
  }

  /** `attemptTier3`: every `div`, `article` and `section` of the document,
      handed to the scoring loop. */
  method AttemptTier3(doc: Document) returns (r: Option<Node>)
    ensures r == Tier3(doc)
  {
    var candidates := Candidates(doc);
    r := ScoreCandidates(candidates);
  }

  /** The scoring loop of `attemptTier3`. The source's skip of SCRIPT and
      STYLE elements is left out: no candidate has those tags. */
  method ScoreCandidates(candidates: seq<Node>) returns (r: Option<Node>)
    ensures r == Tier3Of(candidates)
  {    ghost var rs := Ratings(candidates);
    var bestCandidate: Option<Node> := None;
    var maxScore := 0;
    for i := 0 to |candidates|
      invariant Best(bestCandidate, maxScore) == Scan(candidates[..i], rs[..i])
    {
      assert candidates[..i + 1][..i] == candidates[..i] && rs[..i + 1][..i] == rs[..i];
      var el := candidates[i];
      assert Scan(candidates[..i + 1], rs[..i + 1]) == Step(Best(bestCandidate, maxScore), el, rs[i]);
      var score := 0;
      var text := TextContent(el);
      score := score + (if |text| > LongTextLength then 50 else 0);
      if |text| < MinCandidateLength { continue; }
      var lowerText := ToLower(text);
      score := score + (if Contains(lowerText, "metadata api") then 20 else 0);
      score := score + (if Contains(lowerText, "class") then 10 else 0);
      score := score + (if Contains(lowerText, "apex") then 10 else 0);
      score := score + (if Contains(lowerText, "xml") then 5 else 0);
      score := score - (if Contains(lowerText, "cookie") then 100 else 0);
      score := score - (if Contains(lowerText, "privacy policy") then 50 else 0);
      assert score == Score(text);
      assert rs[i] == Some(score);
      if score > maxScore {
        maxScore := score;
        bestCandidate := Some(el);
      }
    }
    assert candidates[..|candidates|] == candidates && rs[..|rs|] == rs;
    r := if maxScore > AcceptScore then bestCandidate else None;
  }

  // ---------------------------------------------------------------------
  // extract: the tier chain
  // ---------------------------------------------------------------------

  /** The first tier that finds something, the body otherwise. Whatever
      it is, it is an element; it is null only when the document has no
      body, and a Tier 2 result carries at least 500 characters of text. */
  function ExtractOf(doc: Document): (r: Option<Node>)
    ensures r.Some? ==> r.value.Element?
    ensures r.None? <==> Tier1(doc).None? && Tier2(doc).None? && Tier3(doc).None? && Body(doc).None?
    ensures Body(doc).Some? ==> r.Some?
    ensures Tier1(doc).None? && Tier2(doc).Some? ==>
              r == Tier2(doc) && |Trim(TextContent(Tier2(doc).value))| >= Tier2MinLength
  {
    OrElse(Tier1(doc), OrElse(Tier2(doc), OrElse(Tier3(doc), Body(doc))))
  }

  /** `extract`: each tier is run only when every earlier one found nothing. */
  method Extract(doc: Document) returns (r: Option<Node>)
    ensures r == ExtractOf(doc)
  {
    var tier1 := Tier1(doc);
    if tier1.Some? {
      return tier1;
    }
    var tier2 := AttemptTier2(doc);
    if tier2.Some? {
      return tier2;
    }
    var tier3 := AttemptTier3(doc);
    if tier3.Some? {
      return tier3;
    }
    return Body(doc);
  }

  /** The `main` element of the page in the locator's unit test. */
  function ShortMain(): Node {
    Element("main", map[], [Text("Primary documentation content")], NoShadow)
  }

  function ShortMainHeader(): Node {
    Element("header", map["id" := "nav"], [Text("Navigation")], NoShadow)
  }

  /** The body of that page: a header and a `main` holding a short sentence. */
  function ShortMainBody(): Node {
    Element("body", map[], [Text("\n      "), ShortMainHeader(), Text("\n      "), ShortMain(), Text("\n    ")], NoShadow)
  }

  const PageTags: set<string> := {"html", "head", "body", "header", "main"}

  function ShortMainPage(): Document {
    Document([Element("html", map[], [Element("head", map[], [], NoShadow), ShortMainBody()], NoShadow)])
  }

  lemma ShortMainPageTree()
    ensures Preorder(ShortMainPage().nodes) == [
      ShortMainPage().nodes[0], Element("head", map[], [], NoShadow), ShortMainBody(),
      Text("\n      "), ShortMainHeader(), Text("Navigation"), Text("\n      "),
      ShortMain(), Text("Primary documentation content"), Text("\n    ")]
  {
    var body := ShortMainBody();
    assert PreorderNode(ShortMainHeader()) == [ShortMainHeader(), Text("Navigation")];
    assert PreorderNode(ShortMain()) == [ShortMain(), Text("Primary documentation content")];
    assert Preorder(body.children[4..]) == [Text("\n    ")];
    assert Preorder(body.children[3..]) == [ShortMain(), Text("Primary documentation content"), Text("\n    ")];
    assert Preorder(body.children[2..]) == [Text("\n      "), ShortMain(), Text("Primary documentation content"), Text("\n    ")];
    assert Preorder(body.children[1..]) == [ShortMainHeader(), Text("Navigation"), Text("\n      "), ShortMain(), Text("Primary documentation content"), Text("\n    ")];
    assert Preorder(body.children) == [Text("\n      "), ShortMainHeader(), Text("Navigation"), Text("\n      "), ShortMain(), Text("Primary documentation content"), Text("\n    ")];
  }

  /** Every element of `s` has one of `tags` and no attribute other than `id`. */
  predicate PlainTree(s: seq<Node>, tags: set<string>) {
    forall k :: 0 <= k < |s| && s[k].Element? ==> s[k].tag in tags && s[k].attrs.Keys <= {"id"}
  }

  /** A selector for another tag, a class or an attribute other than `id`
      matches nothing in such a tree. */
  lemma PlainTreeNoMatch(s: seq<Node>, tags: set<string>, sels: seq<Selector>)
    requires PlainTree(s, tags)
    requires forall i :: 0 <= i < |sels| ==>
      if sels[i].Type? then sels[i].name !in tags else sels[i].Class? || sels[i].attr != "id"
    ensures forall k :: 0 <= k < |s| ==> !Matches(sels, s[k])
    ensures forall i, k :: 0 <= i < |sels| && 0 <= k < |s| ==> !Matches([sels[i]], s[k])
  {
  }

  lemma FilterNone(s: seq<Node>, sels: seq<Selector>)
    requires forall k :: 0 <= k < |s| ==> !Matches(sels, s[k])
    ensures Filter(s, sels) == []
  {
    if s != [] {
      FilterNone(s[1..], sels);
    }
  }

  /** Tier 2 finds nothing when each of its selectors matches nothing or
      an element with fewer than 500 characters of text. */
  lemma {:induction false} Tier2FromShort(doc: Document, sels: seq<Selector>)
    requires forall k :: 0 <= k < |sels| ==>
      (QuerySelector(doc.nodes, [sels[k]]).None? || |TextContent(QuerySelector(doc.nodes, [sels[k]]).value)| < Tier2MinLength)
    ensures Tier2From(doc, sels).None?
  {
    if sels != [] {
      Tier2FromShort(doc, sels[1..]);
    }
  }

  /** In a tree without classes or `role` attributes and without an
      `article`, Tier 2 can only find `main`, and rejects a short one. */
  lemma Tier2RejectsPlain(doc: Document)
    requires PlainTree(Preorder(doc.nodes), PageTags)
    requires QuerySelector(doc.nodes, [Type("main")]).None?
      || |TextContent(QuerySelector(doc.nodes, [Type("main")]).value)| < Tier2MinLength
    ensures Tier2(doc).None?
  {
    var rest := [AttrEquals("role", "main"), Class("content"), Class("article-content"),
      Class("help-content"), Type("article"), Class("body")];
    assert Tier2Selectors == [Type("main")] + rest;
    PlainTreeNoMatch(Preorder(doc.nodes), PageTags, rest);
    Tier2FromShort(doc, Tier2Selectors);
  }

  /** The page's elements are `html`, `head`, `body`, `header` and `main`,
      in that order, and only the header has an attribute (its `id`). */
  lemma ShortMainPagePlain()
    ensures PlainTree(Preorder(ShortMainPage().nodes), PageTags)
    ensures |Preorder(ShortMainPage().nodes)| > 7 && Preorder(ShortMainPage().nodes)[7] == ShortMain()
    ensures PlainTree(Preorder(ShortMainPage().nodes)[..7], {"html", "head", "body", "header"})
  {
    ShortMainPageTree();
    var p := Preorder(ShortMainPage().nodes);
    assert ShortMainHeader().attrs.Keys == {"id"};
    assert p[..7] == [p[0], p[1], p[2], p[3], p[4], p[5], p[6]];
    assert p[0].tag == "html" && p[0].attrs == map[];
    assert PlainTree(p[..7], {"html", "head", "body", "header"});
    assert PlainTree(p, PageTags);
  }

  /** On that page Tier 1 finds nothing (there is no `doc-xml-content`). */
  lemma ShortMainPageTier1()
    ensures Tier1(ShortMainPage()).None?
  {
    ShortMainPagePlain();
    PlainTreeNoMatch(Preorder(ShortMainPage().nodes), PageTags, [OuterHost]);
  }

  /** ... Tier 2's first selector finds `main` ... */
  lemma ShortMainPageMain()
    ensures QuerySelector(ShortMainPage().nodes, [Tier2Selectors[0]]) == Some(ShortMain())
  {
    ShortMainPagePlain();
    var tree := Preorder(ShortMainPage().nodes);
    assert Matches([Tier2Selectors[0]], tree[7]) by {
      assert [Tier2Selectors[0]][0] == Type("main");
    }
    PlainTreeNoMatch(tree[..7], {"html", "head", "body", "header"}, [Tier2Selectors[0]]);
    assert forall k :: 0 <= k < 7 ==> tree[..7][k] == tree[k];
  }

  /** ... but Tier 2 rejects it, as its text is short, and no other selector
      matches. */
  lemma ShortMainPageTier2()
    ensures Tier2(ShortMainPage()).None?
  {
    ShortMainPagePlain();
    ShortMainPageMain();
    assert |TextContent(ShortMain())| < Tier2MinLength;
    Tier2RejectsPlain(ShortMainPage());
  }

  /** ... Tier 3 has no candidates (no `div`, `article` or `section`). */
  lemma ShortMainPageTier3()
    ensures Candidates(ShortMainPage()) == []
    ensures Tier3(ShortMainPage()).None?
  {
    ShortMainPagePlain();
    PlainTreeNoMatch(Preorder(ShortMainPage().nodes), PageTags, Tier3Selectors);
    FilterNone(Preorder(ShortMainPage().nodes), Tier3Selectors);
  }

  /** ... its body is the first `body` child of its `html` element, and the
      body's text holds the sentence after the header's text. */
  lemma ShortMainPageBody()
    ensures Body(ShortMainPage()) == Some(ShortMainBody())
    ensures TextContent(ShortMainBody()) ==
      "\n      " + "Navigation" + "\n      " + "Primary documentation content" + "\n    "
  {
    var html := ShortMainPage().nodes[0];
    assert !Matches([Type("body"), Type("frameset")], html.children[0]);
    assert Matches([Type("body"), Type("frameset")], html.children[1]) by {
      assert MatchesElement([Type("body"), Type("frameset")][0], "body", map[]);
    }
    var cs := ShortMainBody().children;
    assert ChildText(cs[4..]) == "\n    ";
    assert ChildText(cs[3..]) == "Primary documentation content" + "\n    ";
    assert ChildText(cs[2..]) == "\n      " + "Primary documentation content" + "\n    ";
    assert ChildText(cs[1..]) == "Navigation" + "\n      " + "Primary documentation content" + "\n    ";
    assert ChildText(cs) == "\n      " + "Navigation" + "\n      " + "Primary documentation content" + "\n    ";
  }

  /** ... the body's text holds the sentence the test looks for ... */
  lemma ShortMainPageText()
    ensures Contains(TextContent(ShortMainBody()), "Primary documentation content")
  {
    ShortMainPageBody();
    ContainsMiddle("\n      " + "Navigation" + "\n      ", "Primary documentation content", "\n    ");
  }

  /** ... so `extract` returns the body, not `main`, and the test's check
      on its text holds. */
  lemma ExtractShortMainPage()
    ensures ExtractOf(ShortMainPage()) == Some(ShortMainBody())
    ensures Contains(TextContent(ExtractOf(ShortMainPage()).value), "Primary documentation content")
  {
    ShortMainPageTier1();
    ShortMainPageTier2();
    ShortMainPageTier3();
    ShortMainPageBody();
    ShortMainPageText();
  }
}
