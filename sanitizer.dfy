/**
  The `Sanitizer`: `clean(element)` deep-clones the located element, removes
  junk from the clone by tag and by selector, makes relative links and image
  sources absolute, and returns the clone's `innerHTML`. Every change is made
  to the clone: `Clean` has no `modifies` clause, so the verifier holds it to
  leaving every object that existed before the call as it was.
 */
module Sanitizer {
  import opened Wrappers
  import opened Strings
  import opened Dom
  import opened LiveDom
  import opened Junk
  import opened Refs

  /** The tags removed first, one `querySelectorAll` pass each. */
  const JunkTags: seq<string> := ["script", "style", "noscript", "svg", "iframe", "button", "input"]

  /** The page furniture removed next: Salesforce's UI classes and anything
      hidden from assistive technology. */
  const NoiseSelectors: seq<Selector> := [
    Class("checkbox-wrapper"), Class("feedback-widget"), Class("site-header"),
    Class("site-footer"), Class("cookie-banner"), Class("on-page-navigation"),
    Class("copy-icon"), AttrEquals("aria-hidden", "true")]

  /** One type selector per tag, in order. */
  function TagSelectors(tags: seq<string>): (sels: seq<Selector>)
    ensures |sels| == |tags|
    ensures forall k :: 0 <= k < |tags| ==> sels[k] == Type(tags[k])
  {
    seq(|tags|, k requires 0 <= k < |tags| => Type(tags[k]))
  }

  /** Everything `clean` removes. */
  const JunkSelectors: seq<Selector> := TagSelectors(JunkTags) + NoiseSelectors

  /** The value `clean` serializes: the clone of `n` (shadow roots are not
      cloned) without its junk, with links and then images resolved. */
  function CleanOf(n: Node, base: string, resolve: Resolver): (r: Node)
    ensures r.Element? <==> n.Element?
    ensures n.Element? ==> r.tag == n.tag && r.attrs == n.attrs
  {
    var pruned := PruneNode(Unshadowed(n), JunkSelectors);
    RewriteBelow(RewriteBelow(pruned, LinkRule, base, resolve), ImageRule, base, resolve)
  }

  /** The rewrite rules look only at `href` and `src`, which no junk
      selector mentions. */
  lemma JunkIgnoresRefs()
    ensures forall k :: 0 <= k < |JunkSelectors| ==> !Mentions(JunkSelectors[k], LinkRule.attr)
    ensures forall k :: 0 <= k < |JunkSelectors| ==> !Mentions(JunkSelectors[k], ImageRule.attr)
  {
    forall k | 0 <= k < |JunkSelectors|
      ensures !Mentions(JunkSelectors[k], "href") && !Mentions(JunkSelectors[k], "src")
    {
      if k < |JunkTags| {
        assert JunkSelectors[k] == Type(JunkTags[k]);
      } else {
        assert JunkSelectors[k] == NoiseSelectors[k - |JunkTags|];
      }
    }
  }

  /** No junk survives `clean`: a query for any junk tag or noise selector
      on the cleaned element finds nothing, whatever the resolutions. */
  lemma CleanLeavesNoJunk(n: Node, base: string, resolve: Resolver)
    requires n.Element?
    ensures QuerySelector(CleanOf(n, base, resolve).children, JunkSelectors).None?
    ensures forall k :: 0 <= k < |JunkSelectors| ==>
              QuerySelector(CleanOf(n, base, resolve).children, [JunkSelectors[k]]).None?
  {
    var u := Unshadowed(n);
    var pruned := PruneChildren(u.children, JunkSelectors);
    PruneLeavesNone(u.children, JunkSelectors);
    JunkIgnoresRefs();
    RewriteKeepsNoneMatching(pruned, JunkSelectors, LinkRule, base, resolve);
    var linked := RewriteChildren(pruned, LinkRule, base, resolve);
    RewriteKeepsNoneMatching(linked, JunkSelectors, ImageRule, base, resolve);
    var out := CleanOf(n, base, resolve).children;
    assert out == RewriteChildren(linked, ImageRule, base, resolve);
    forall k, x | 0 <= k < |JunkSelectors| && x in Preorder(out)
      ensures !Matches([JunkSelectors[k]], x)
    {
      MatchesMember(JunkSelectors, k, x);
    }
  }

  /** Junk removal on the output of `clean` removes nothing. */
  lemma CleanJunkIdempotent(n: Node, base: string, resolve: Resolver)
    requires n.Element?
    ensures PruneNode(CleanOf(n, base, resolve), JunkSelectors) == CleanOf(n, base, resolve)
  {
    var c := CleanOf(n, base, resolve);
    CleanLeavesNoJunk(n, base, resolve);
    assert NoneMatch(c.children, JunkSelectors);
    PruneNoneMatch(c.children, JunkSelectors);
  }

  /** When no reference can be resolved, `clean` only removes junk. */
  lemma CleanWithoutResolution(n: Node, base: string, resolve: Resolver)
    requires forall r :: resolve(r, base).None?
    ensures CleanOf(n, base, resolve) == PruneNode(Unshadowed(n), JunkSelectors)
  {
    var pruned := PruneNode(Unshadowed(n), JunkSelectors);
    if pruned.Element? {
      RewriteFailing(pruned, LinkRule, base, resolve);
      RewriteFailing(pruned, ImageRule, base, resolve);
    }
  }

  /** An element with none of the junk tags, no class and no
      `aria-hidden` attribute is not junk, and neither is text. */
  lemma NotJunk(n: Node)
    requires n.Element? ==> n.tag !in JunkTags && "class" !in n.attrs && "aria-hidden" !in n.attrs
    ensures !Matches(JunkSelectors, n)
  {
    if n.Element? {
      forall k | 0 <= k < |JunkSelectors| ensures !MatchesElement(JunkSelectors[k], n.tag, n.attrs) {
        if k < |JunkTags| {
          assert JunkSelectors[k] == Type(JunkTags[k]);
        } else {
          assert JunkSelectors[k] == NoiseSelectors[k - |JunkTags|];
        }
      }
    }
  }

  // ---------------------------------------------------------------------
  // Two pages, as `innerHTML` would build them
  // ---------------------------------------------------------------------

  /** A text node, or an element without a shadow root whose children are
      all text. */
  predicate Flat(n: Node) {
    n.Text? || (n.Element? && n.shadow == NoShadow
                && forall k :: 0 <= k < |n.children| ==> n.children[k].Text?)
  }

  /** A flat node is its own clone and loses nothing to junk removal. */
  lemma FlatKept(n: Node, sels: seq<Selector>)
    requires Flat(n)
    ensures Unshadowed(n) == n
    ensures PruneNode(n, sels) == n
  {
    if n.Element? {
      assert UnshadowedAll(n.children) == n.children;
      assert NoneMatch(n.children, sels) by {
        forall x | x in Preorder(n.children) ensures !x.Element? {
          PreorderTexts(n.children);
        }
      }
      PruneNoneMatch(n.children, sels);
    }
  }

  /** A flat node is left alone by a rule for another tag. */
  lemma FlatStays(n: Node, sels: seq<Selector>, rule: RefRule, base: string, resolve: Resolver)
    requires Flat(n) && (n.Element? ==> n.tag != rule.tag)
    ensures Unshadowed(n) == n
    ensures PruneNode(n, sels) == n
    ensures RewriteNode(n, rule, base, resolve) == n
  {
    FlatKept(n, sels);
    if n.Element? {
      assert RewriteChildren(n.children, rule, base, resolve) == n.children;
    }
  }

  lemma {:induction false} PreorderTexts(ns: seq<Node>)
    requires forall k :: 0 <= k < |ns| ==> ns[k].Text?
    ensures Preorder(ns) == ns
  {
    if ns != [] {
      PreorderTexts(ns[1..]);
      assert ns == [ns[0]] + ns[1..];
    }
  }

  /** One step of junk removal along a sibling list. */
  lemma PruneStep(cs: seq<Node>, i: nat, sels: seq<Selector>)
    requires i < |cs|
    ensures PruneChildren(cs[i..], sels)
         == (if Matches(sels, cs[i]) then [] else [PruneNode(cs[i], sels)]) + PruneChildren(cs[i + 1..], sels)
  {
    assert cs[i..][0] == cs[i] && cs[i..][1..] == cs[i + 1..];
  }

  /** Junk removal over flat nodes keeps some of them, unchanged. */
  lemma {:induction false} PruneFlatList(cs: seq<Node>, sels: seq<Selector>)
    requires forall k :: 0 <= k < |cs| ==> Flat(cs[k])
    ensures forall x :: x in PruneChildren(cs, sels) ==> x in cs
  {
    if cs != [] {
      PruneFlatList(cs[1..], sels);
      FlatKept(cs[0], sels);
    }
  }

  /** For an element whose children are flat and neither links nor images,
      `clean` comes down to junk removal among the children. */
  lemma CleanFlatChildren(n: Node, base: string, resolve: Resolver)
    requires n.Element?
    requires forall k :: 0 <= k < |n.children| ==>
               Flat(n.children[k]) && (n.children[k].Element? ==> n.children[k].tag !in {"a", "img"})
    ensures CleanOf(n, base, resolve).children == PruneChildren(n.children, JunkSelectors)
  {
    var cs := n.children;
    forall k | 0 <= k < |cs| ensures Unshadowed(cs[k]) == cs[k] {
      FlatKept(cs[k], []);
    }
    assert UnshadowedAll(cs) == cs;
    var kept := PruneChildren(cs, JunkSelectors);
    PruneFlatList(cs, JunkSelectors);
    forall k | 0 <= k < |kept|
      ensures RewriteNode(kept[k], LinkRule, base, resolve) == kept[k]
      ensures RewriteNode(kept[k], ImageRule, base, resolve) == kept[k]
    {
      assert kept[k] in cs;
      FlatStays(kept[k], [], LinkRule, base, resolve);
      FlatStays(kept[k], [], ImageRule, base, resolve);
    }
    assert RewriteChildren(kept, LinkRule, base, resolve) == kept;
    assert RewriteChildren(kept, ImageRule, base, resolve) == kept;
  }

  /** Removal from seven siblings of which the fourth and the sixth match. */
  lemma DropFourthAndSixth(cs: seq<Node>, sels: seq<Selector>)
    requires |cs| == 7 && forall k :: 0 <= k < 7 ==> Flat(cs[k])
    requires Matches(sels, cs[3]) && Matches(sels, cs[5])
    requires !Matches(sels, cs[0]) && !Matches(sels, cs[1]) && !Matches(sels, cs[2])
    requires !Matches(sels, cs[4]) && !Matches(sels, cs[6])
    ensures PruneChildren(cs, sels) == [cs[0], cs[1], cs[2], cs[4], cs[6]]
  {
    forall k | 0 <= k < 7 ensures PruneNode(cs[k], sels) == cs[k] {
      FlatKept(cs[k], sels);
    }
    PruneStep(cs, 0, sels);
    PruneStep(cs, 1, sels);
    PruneStep(cs, 2, sels);
    PruneStep(cs, 3, sels);
    PruneStep(cs, 4, sels);
    PruneStep(cs, 5, sels);
    PruneStep(cs, 6, sels);
    assert cs[0..] == cs && cs[7..] == [];
  }

  /** An element whose class list is exactly `cookie-banner` is junk. */
  lemma CookieBannerIsJunk(n: Node)
    requires n.Element? && "class" in n.attrs && n.attrs["class"] == "cookie-banner"
    ensures Matches(JunkSelectors, n)
  {
    assert JunkSelectors[11] == Class("cookie-banner");
    assert OccursAt("cookie-banner", "cookie-banner", 0);
    assert HasTokenFrom("cookie-banner", "cookie-banner", 0);
  }

  /** A `div` without attributes is not junk. */
  lemma PlainDivIsNotJunk(n: Node)
    requires n.Element? && n.tag == "div" && n.attrs == map[]
    ensures !Matches(JunkSelectors, n)
  {
    NotJunk(n);
  }

  /** A `script` element is junk. */
  lemma ScriptIsJunk(n: Node)
    requires n.Element? && n.tag == "script"
    ensures Matches(JunkSelectors, n)
  {
    assert JunkSelectors[0] == Type("script");
  }

  /** A `div` holding a content `div`, a cookie banner and a script, with
      the whitespace text between them. */
  function JunkPage(): Node {
    Element("div", map[], [
      Text("\n            "),
      Element("div", map[], [Text("Content")], NoShadow),
      Text("\n            "),
      Element("div", map["class" := "cookie-banner"], [Text("Cookie")], NoShadow),
      Text("\n            "),
      Element("script", map[], [Text("alert(1)")], NoShadow),
      Text("\n        ")], NoShadow)
  }

  /** Cleaning it keeps the content `div` and the text between the elements
      in their order, and drops the cookie banner and the script. */
  lemma CleanJunkPage(base: string, resolve: Resolver)
    ensures var cs := JunkPage().children;
            CleanOf(JunkPage(), base, resolve).children == [cs[0], cs[1], cs[2], cs[4], cs[6]]
    ensures CleanOf(JunkPage(), base, resolve).children[1]
            == Element("div", map[], [Text("Content")], NoShadow)
  {
    var cs := JunkPage().children;
    CleanFlatChildren(JunkPage(), base, resolve);
    CookieBannerIsJunk(cs[3]);
    ScriptIsJunk(cs[5]);
    PlainDivIsNotJunk(cs[1]);
    DropFourthAndSixth(cs, JunkSelectors);
  }

  /** A `div` holding one relative link. */
  function LinkPage(): Node {
    Element("div", map[], [
      Element("a", map["href" := "../api/test.html"], [Text("Link")], NoShadow)], NoShadow)
  }

  /** Cleaning it against `https://example.com/doc` stores the link's
      resolution in its `href`. */
  lemma CleanLinkPage(resolve: Resolver)
    requires resolve("../api/test.html", "https://example.com/doc")
             == Some("https://example.com/api/test.html")
    ensures CleanOf(LinkPage(), "https://example.com/doc", resolve).children == [
      Element("a", map["href" := "https://example.com/api/test.html"], [Text("Link")], NoShadow)]
  {
    var base := "https://example.com/doc";
    var link := LinkPage().children[0];
    FlatStays(link, JunkSelectors, ImageRule, base, resolve);
    assert UnshadowedAll(LinkPage().children) == LinkPage().children;
    NotJunk(link);
    assert PruneChildren(LinkPage().children, JunkSelectors) == [link];
    var v := "../api/test.html";
    assert !StartsWith(v, "http") by { assert v[..4][0] != "http"[0]; }
    assert !StartsWith(v, "#") by { assert v[..1][0] != "#"[0]; }
    assert !StartsWith(v, "mailto:") by { assert v[..7][0] != "mailto:"[0]; }
    assert Rewritable(v, LinkRule.skips);
    var resolved := Element("a", map["href" := "https://example.com/api/test.html"], [Text("Link")], NoShadow);
    assert Resolved(link.attrs, LinkRule, base, resolve) == resolved.attrs;
    assert RewriteChildren(link.children, LinkRule, base, resolve) == link.children;
    assert RewriteNode(link, LinkRule, base, resolve) == resolved;
    FlatStays(resolved, [], ImageRule, base, resolve);
  }

  // ---------------------------------------------------------------------
  // The in-place steps, on the clone
  // ---------------------------------------------------------------------

  /** `node.querySelectorAll(sels).forEach(el => el.remove())`: detaches
      every matching descendant, with everything below it. The footprint
      `Repr` is kept as it was: detached subtrees stay in it, unreachable. */
  method RemoveMatching(node: LiveNode, sels: seq<Selector>)
    requires node.Valid()
    modifies node.Repr
    ensures node.Valid()
    ensures node.model == PruneNode(old(node.model), sels)
    decreases node.Repr
  {
    if node.kind == ElementKind {
      ghost var ms := node.model.children;
      var kept := RemoveAll(node.children, sels, node.Repr, node.Repr - {node}, ms);
      node.children := kept;
      node.model := Element(node.tag, node.attrs, PruneChildren(ms, sels), node.shadow);
    }
  }

  /** The siblings `cs` (standing for `ms`) that survive, each with its
      matching descendants removed, changing no object outside `region`. */
  method RemoveAll(cs: seq<LiveNode>, sels: seq<Selector>, ghost owner: set<object>,
                   ghost region: set<object>, ghost ms: seq<Node>) returns (kept: seq<LiveNode>)
    requires Forest(cs) && Mirrors(cs, ms)
    requires forall i :: 0 <= i < |cs| ==> cs[i].Repr < owner && cs[i].Repr <= region
    modifies region
    ensures Planted(kept, region, PruneChildren(ms, sels))
    decreases owner, |cs|
  {
    if cs == [] {
      return [];
    }
    var first := cs[0];
    FirstApart(cs);
    if first.kind == ElementKind && MatchesAnyElement(sels, first.tag, first.attrs) {
      assert Matches(sels, ms[0]);
      kept := RemoveAll(cs[1..], sels, owner, region, ms[1..]);
    } else {
      assert !Matches(sels, ms[0]);
      label Start:
      RemoveMatching(first, sels);
      StillForest@Start(cs[1..]);
      label Rest:
      var rest := RemoveAll(cs[1..], sels, owner, region - first.Repr, ms[1..]);
      StillValid@Rest(first);
      PlantedCons(first, rest, region, PruneNode(ms[0], sels), PruneChildren(ms[1..], sels));
      kept := [first] + rest;
    }
  }

  /** `cs` is a forest inside `region` whose trees stand for `ms`. */
  ghost predicate Planted(cs: seq<LiveNode>, region: set<object>, ms: seq<Node>)
    reads cs, set k, o | 0 <= k < |cs| && o in cs[k].Repr :: o
  {
    Forest(cs) && (forall i :: 0 <= i < |cs| ==> cs[i].Repr <= region) && Mirrors(cs, ms)
  }

  lemma PlantedCons(c: LiveNode, cs: seq<LiveNode>, region: set<object>, m: Node, ms: seq<Node>)
    requires c.Valid() && c.Repr <= region && c.model == m
    requires Planted(cs, region - c.Repr, ms)
    ensures Planted([c] + cs, region, [m] + ms)
  {
    ForestCons(c, cs);
    MirrorsCons(c, cs, m, ms);
    forall i | 1 <= i < |cs| + 1 ensures ([c] + cs)[i].Repr <= region {
      assert ([c] + cs)[i] == cs[i - 1];
    }
  }

  /** Steps 2 and 3 of `clean`: one removal pass per junk tag, then one per
      noise selector, together removing what a single pass with all of
      them removes. */
  method RemoveJunk(node: LiveNode)
    requires node.Valid()
    modifies node.Repr
    ensures node.Valid()
    ensures node.model == PruneNode(old(node.model), JunkSelectors)
  {
    ghost var start := node.model;
    RemoveTags(node, JunkTags);
    RemoveEach(node, NoiseSelectors);
    PruneCompose(start, TagSelectors(JunkTags), NoiseSelectors);
  }

  /** `tags.forEach(tag => ...remove())`: one removal pass per tag name. */
  method RemoveTags(node: LiveNode, tags: seq<string>)
    requires node.Valid()
    modifies node.Repr
    ensures node.Valid()
    ensures node.model == PruneNode(old(node.model), TagSelectors(tags))
  {
    ghost var start := node.model;
    PruneNothing(start);
    for i := 0 to |tags|
      invariant node.Valid()
      invariant node.model == PruneNode(start, TagSelectors(tags[..i]))
    {
      RemoveMatching(node, [Type(tags[i])]);
      PruneCompose(start, TagSelectors(tags[..i]), [Type(tags[i])]);
      assert TagSelectors(tags[..i + 1]) == TagSelectors(tags[..i]) + [Type(tags[i])];
    }
    assert tags[..|tags|] == tags;
  }

  /** `selectors.forEach(selector => ...remove())`: one removal pass per
      selector. */
  method RemoveEach(node: LiveNode, sels: seq<Selector>)
    requires node.Valid()
    modifies node.Repr
    ensures node.Valid()
    ensures node.model == PruneNode(old(node.model), sels)
  {
    ghost var start := node.model;
    PruneNothing(start);
    for i := 0 to |sels|
      invariant node.Valid()
      invariant node.model == PruneNode(start, sels[..i])
    {
      RemoveMatching(node, [sels[i]]);
      PruneCompose(start, sels[..i], [sels[i]]);
      assert sels[..i + 1] == sels[..i] + [sels[i]];
    }
    assert sels[..|sels|] == sels;
  }

  /** Rewrites the rule's attribute of `node` itself when the rule selects
      it, then of every descendant. */
  method ResolveNode(node: LiveNode, rule: RefRule, base: string, resolve: Resolver)
    requires node.Valid()
    modifies node.Repr
    ensures node.Valid()
    ensures node.model == RewriteNode(old(node.model), rule, base, resolve)
    decreases node.Repr, 2
  {
    if node.kind == ElementKind && node.tag == rule.tag && rule.attr in node.attrs {
      var value := node.attrs[rule.attr];
      if Rewritable(value, rule.skips) {
        var absolute := resolve(value, base);
        if absolute.Some? {
          node.attrs := node.attrs[rule.attr := absolute.value];
          node.model := node.model.(attrs := node.attrs);
        }
      }
    }
    ResolveBelow(node, rule, base, resolve);
  }

  /** `resolveLinks(root)` / `resolveImages(root)`: rewrites every
      descendant of `node` the rule selects. */
  method ResolveBelow(node: LiveNode, rule: RefRule, base: string, resolve: Resolver)
    requires node.Valid()
    modifies node.Repr
    ensures node.Valid()
    ensures node.model == RewriteBelow(old(node.model), rule, base, resolve)
    decreases node.Repr, 1
  {
    if node.kind == ElementKind {
      ghost var ms := node.model.children;
      ResolveAll(node.children, rule, base, resolve, node.Repr, node.Repr - {node}, ms);
      node.model := Element(node.tag, node.attrs, RewriteChildren(ms, rule, base, resolve), node.shadow);
    }
  }

  /** Rewrites the siblings `cs` (standing for `ms`) and their descendants,
      changing no object outside `region`. */
  method ResolveAll(cs: seq<LiveNode>, rule: RefRule, base: string, resolve: Resolver,
                    ghost owner: set<object>, ghost region: set<object>, ghost ms: seq<Node>)
    requires Forest(cs) && Mirrors(cs, ms)
    requires forall i :: 0 <= i < |cs| ==> cs[i].Repr < owner && cs[i].Repr <= region
    modifies region
    ensures forall i :: 0 <= i < |cs| ==> cs[i].Valid()
    ensures Mirrors(cs, RewriteChildren(ms, rule, base, resolve))
    decreases owner, 0, |cs|
  {
    if cs != [] {
      FirstApart(cs);
      label Start:
      ResolveNode(cs[0], rule, base, resolve);
      StillForest@Start(cs[1..]);
      label Rest:
      ResolveAll(cs[1..], rule, base, resolve, owner, region - cs[0].Repr, ms[1..]);
      StillValid@Rest(cs[0]);
    }
  }

  /** The value a subtree stands for, read off its objects: what the
      serializer behind `innerHTML` sees. */
  function Snapshot(n: LiveNode): (r: Node)
    requires n.Valid()
    reads n, n.Repr
    ensures r == n.model
    decreases n.Repr, 1
  {
    ValueOf(n.kind, n.tag, n.data, n.attrs, SnapshotAll(n.children, n.Repr), n.shadow)
  }

  function SnapshotAll(cs: seq<LiveNode>, ghost owner: set<object>): (rs: seq<Node>)
    requires forall i :: 0 <= i < |cs| ==> cs[i].Valid() && cs[i].Repr < owner
    reads cs, set i, o | 0 <= i < |cs| && o in cs[i].Repr :: o
    ensures Mirrors(cs, rs)
    decreases owner, 0, |cs|
  {
    if cs == [] then [] else [Snapshot(cs[0])] + SnapshotAll(cs[1..], owner)
  }

  // ---------------------------------------------------------------------
  // clean
  // ---------------------------------------------------------------------

  /** `clean(element)`: "" for a missing element; otherwise the markup of the
      children of a cleaned deep copy. `innerHtml` is the browser's
      serializer. Without a `modifies` clause, the method can change only
      the objects it allocates, so `element` and its subtree come out as
      they went in. */
  method Clean(element: LiveNode?, base: string, resolve: Resolver,
               innerHtml: seq<Node> -> string) returns (html: string)
    requires element != null ==> element.Valid() && element.kind == ElementKind
    ensures element == null ==> html == ""
    ensures element != null ==> html == innerHtml(CleanOf(element.model, base, resolve).children)
  {
    if element == null {
      return "";
    }
    var clone := element.CloneNode();
    RemoveJunk(clone);
    ResolveBelow(clone, LinkRule, base, resolve);
    ResolveBelow(clone, ImageRule, base, resolve);
    html := innerHtml(Snapshot(clone).children);
  }
}
