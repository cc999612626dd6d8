/**
  The part of the browser's DOM the content pipeline reads: an abstract node
  tree with element tags, attribute maps, ordered child lists, text, and an
  optional open shadow root, together with the queries the pipeline runs on
  it (`querySelector`, `querySelectorAll`, `textContent`, `getAttribute`,
  `firstChild`, `nodeName`, `document.body`).

  Element tags are stored as HTML local names (lower case), so a type
  selector such as `main` compares with `tag` directly, and `nodeName` is the
  ASCII upper-cased tag.
 */
module Dom {
  import opened Wrappers
  import opened Strings

  datatype Node =
    | Element(tag: string, attrs: map<string, string>, children: seq<Node>, shadow: Shadow)
    | Text(data: string)
    | Comment(data: string)

  /** An element's attached shadow root, as seen through `element.shadowRoot`:
      a closed shadow root reads as `NoShadow`, exactly as the getter returns null. */
  datatype Shadow = NoShadow | ShadowRoot(nodes: seq<Node>)

  /** A document: its child nodes (doctype and comments aside, the document element). */
  datatype Document = Document(nodes: seq<Node>)

  /** `el.getAttribute(name)`: null when the attribute is absent. */
  function GetAttribute(n: Node, name: string): (r: Option<string>)
    ensures r.Some? <==> n.Element? && name in n.attrs
    ensures r.Some? ==> r.value == n.attrs[name]
  {
    if n.Element? && name in n.attrs then Some(n.attrs[name]) else None
  }

  /** `node.getAttribute('class') || ''` */
  function ClassName(n: Node): string {
    GetAttribute(n, "class").GetOr("")
  }

  /** `node.nodeName`: the upper-cased tag of an HTML element. */
  function NodeName(n: Node): string {
    match n
    case Element(tag, _, _, _) => ToUpper(tag)
    case Text(_) => "#text"
    case Comment(_) => "#comment"
  }

  /** `node.firstChild`: the first child node of any kind, text included. */
  function FirstChild(n: Node): (r: Option<Node>)
    ensures r.Some? <==> n.Element? && n.children != []
    ensures r.Some? ==> r.value == n.children[0]
  {
    if n.Element? && n.children != [] then Some(n.children[0]) else None
  }

  /** The text a node contributes to its ancestors' `textContent`:
      text nodes their data, comments nothing, elements their children's. */
  function NodeText(n: Node): string
    decreases n
  {
    match n
    case Text(d) => d
    case Comment(_) => ""
    case Element(_, _, cs, _) => ChildText(cs)
  }

  /** The concatenated text of a list of sibling nodes, in order. */
  function ChildText(ns: seq<Node>): string
    decreases ns
  {
    if ns == [] then "" else NodeText(ns[0]) + ChildText(ns[1..])
  }

  /** `node.textContent`: the data of every descendant text node in tree
      order (a shadow tree's text is not part of it). */
  function TextContent(n: Node): string {
    if n.Comment? then n.data else NodeText(n)
  }

  lemma {:induction false} ChildTextAppend(a: seq<Node>, b: seq<Node>)
    ensures ChildText(a + b) == ChildText(a) + ChildText(b)
    decreases a
  {
    if a == [] {
      assert a + b == b;
    } else {
      assert (a + b)[0] == a[0] && (a + b)[1..] == a[1..] + b;
      ChildTextAppend(a[1..], b);
    }
  }

  /** Every node in a list, each followed by its descendants: tree order
      over the light tree (shadow trees are not entered). */
  function Preorder(ns: seq<Node>): seq<Node>
    decreases ns
  {
    if ns == [] then [] else PreorderNode(ns[0]) + Preorder(ns[1..])
  }

  function PreorderNode(n: Node): seq<Node>
    decreases n
  {
    [n] + match n
          case Element(_, _, cs, _) => Preorder(cs)
          case _ => []
  }

  /** The simple selectors the pipeline uses. */
  datatype Selector =
    | Type(name: string)                          // main
    | Class(name: string)                         // .content
    | AttrEquals(attr: string, value: string)     // [role="main"]
    | AttrContains(attr: string, value: string)   // [class*="main"]

  /** `name` is one of the ASCII-whitespace separated tokens of `s`, found at or after `i`. */
  predicate HasTokenFrom(s: string, name: string, i: nat)
    decreases |s| - i
  {
    (OccursAt(s, name, i) && (i == 0 || IsAsciiWhitespace(s[i - 1]))
                          && (i + |name| == |s| || IsAsciiWhitespace(s[i + |name|])))
    || (i < |s| && HasTokenFrom(s, name, i + 1))
  }

  /** The class list of an element whose class attribute is `s` contains `name`. */
  predicate HasClass(s: string, name: string) {
    name != "" && HasTokenFrom(s, name, 0)
  }

  /** Whether a selector matches an element with this tag and these attributes. */
  predicate MatchesElement(sel: Selector, tag: string, attrs: map<string, string>) {
    match sel
    case Type(name) => tag == name
    case Class(name) => "class" in attrs && HasClass(attrs["class"], name)
    case AttrEquals(a, v) => a in attrs && attrs[a] == v
    case AttrContains(a, v) => a in attrs && v != "" && Contains(attrs[a], v)
  }

  /** Whether a selector list (`div, article, section`) matches an element
      with this tag and these attributes. */
  predicate MatchesAnyElement(sels: seq<Selector>, tag: string, attrs: map<string, string>) {
    exists k :: 0 <= k < |sels| && MatchesElement(sels[k], tag, attrs)
  }

  /** Selectors match elements only, never text or comments. */
  predicate Matches(sels: seq<Selector>, n: Node) {
    n.Element? && MatchesAnyElement(sels, n.tag, n.attrs)
  }

  /** A node one selector of a list matches, the list matches. */
  lemma MatchesMember(sels: seq<Selector>, k: int, x: Node)
    requires 0 <= k < |sels|
    ensures Matches([sels[k]], x) ==> Matches(sels, x)
  {
    if Matches([sels[k]], x) {
      assert MatchesElement([sels[k]][0], x.tag, x.attrs);
    }
  }

  /** The first node of `s` that a selector list matches. */
  function FirstMatch(s: seq<Node>, sels: seq<Selector>): (r: Option<Node>)
    ensures r.None? <==> forall k :: 0 <= k < |s| ==> !Matches(sels, s[k])
    ensures r.Some? ==> exists k :: 0 <= k < |s| && s[k] == r.value && Matches(sels, s[k])
                                    && forall j :: 0 <= j < k ==> !Matches(sels, s[j])
  {
    if s == [] then None
    else if Matches(sels, s[0]) then Some(s[0])
    else
      var r := FirstMatch(s[1..], sels);
      assert forall k :: 1 <= k < |s| ==> s[k] == s[1..][k - 1];
      r
  }

  /** `root.querySelector(selector)` where `ns` are the root's child nodes:
      the first matching descendant in tree order. */
  function QuerySelector(ns: seq<Node>, sels: seq<Selector>): Option<Node> {
    FirstMatch(Preorder(ns), sels)
  }

  /** `root.querySelectorAll(selector)`: every matching descendant, in tree order. */
  function QuerySelectorAll(ns: seq<Node>, sels: seq<Selector>): seq<Node> {
    Filter(Preorder(ns), sels)
  }

  /** The elements of `s` that match `sels`, in their order in `s`. */
  function Filter(s: seq<Node>, sels: seq<Selector>): seq<Node> {
    if s == [] then []
    else (if Matches(sels, s[0]) then [s[0]] else []) + Filter(s[1..], sels)
  }

  /** Filtering keeps the order of `s`: the matches of a prefix come
      before the matches of what follows it. */
  lemma {:induction false} FilterAppend(a: seq<Node>, b: seq<Node>, sels: seq<Selector>)
    ensures Filter(a + b, sels) == Filter(a, sels) + Filter(b, sels)
    decreases a
  {
    if a == [] {
      assert a + b == b;
    } else {
      var h := if Matches(sels, a[0]) then [a[0]] else [];
      assert (a + b)[0] == a[0] && (a + b)[1..] == a[1..] + b;
      assert Filter(a + b, sels) == h + Filter(a[1..] + b, sels);
      FilterAppend(a[1..], b, sels);
      assert h + (Filter(a[1..], sels) + Filter(b, sels)) == (h + Filter(a[1..], sels)) + Filter(b, sels);
    }
  }

  /** Filtering keeps exactly the matching nodes. */
  lemma {:induction false} FilterFacts(s: seq<Node>, sels: seq<Selector>)
    ensures forall k :: 0 <= k < |Filter(s, sels)| ==> Matches(sels, Filter(s, sels)[k])
    ensures forall x :: x in s && Matches(sels, x) ==> x in Filter(s, sels)
    ensures forall x :: x in Filter(s, sels) ==> x in s
  {
    if s != [] {
      FilterFacts(s[1..], sels);
      forall x | x in s && Matches(sels, x) ensures x in Filter(s, sels) {
        if x != s[0] {
          assert x in s[1..];
        }
      }
    }
  }

  /** `document.documentElement`: the document's first element child. */
  function DocumentElement(nodes: seq<Node>): (r: Option<Node>)
    ensures r.Some? ==> r.value in nodes && r.value.Element?
  {
    if nodes == [] then None
    else if nodes[0].Element? then Some(nodes[0])
    else DocumentElement(nodes[1..])
  }

  /** `document.body`: the first `body` or `frameset` child of an `html`
      document element; null for any other document. */
  function Body(doc: Document): (r: Option<Node>)
    ensures r.Some? ==> r.value.Element? && r.value.tag in {"body", "frameset"}
  {
    match DocumentElement(doc.nodes)
    case Some(html) =>
      if html.tag == "html"
      then FirstMatch(html.children, [Type("body"), Type("frameset")])
      else None
    case None => None
  }
}
