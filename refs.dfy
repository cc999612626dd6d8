/**
  Rewriting relative references to absolute ones: `resolveLinks` rewrites the
  `href` of every `a[href]` below the root, `resolveImages` the `src` of every
  `img[src]`. A value is left alone when it is empty or starts with one of
  the rule's prefixes. URL resolution itself (`new URL(ref, base).href`) is a
  parameter: `None` stands for the exception it throws, which the code
  catches, keeping the old value and going on with the next element.
 */
module Refs {
  import opened Wrappers
  import opened Strings
  import opened Dom

  /** Which attribute of which elements to rewrite, and the prefixes that
      mark a value as already absolute (or not a location at all). */
  datatype RefRule = RefRule(tag: string, attr: string, skips: seq<string>)

  /** `resolveLinks`: `a[href]`, skipping "http", "#" and "mailto:". */
  const LinkRule := RefRule("a", "href", ["http", "#", "mailto:"])

  /** `resolveImages`: `img[src]`, skipping "http" and "data:". */
  const ImageRule := RefRule("img", "src", ["http", "data:"])

  /** `Resolve(ref, base)`: the absolute URL of `ref` against `base`, or
      `None` where `new URL` throws. */
  type Resolver = (string, string) -> Option<string>

  /** The guard: a non-empty value that starts with none of the prefixes. */
  predicate Rewritable(v: string, skips: seq<string>) {
    v != "" && forall k :: 0 <= k < |skips| ==> !StartsWith(v, skips[k])
  }

  /** The attributes of a selected element after the rewrite step. */
  function Resolved(attrs: map<string, string>, rule: RefRule, base: string,
                    resolve: Resolver): (r: map<string, string>)
    ensures r.Keys == attrs.Keys
    ensures forall k :: k in attrs && k != rule.attr ==> r[k] == attrs[k]
    ensures (rule.attr in attrs && !Rewritable(attrs[rule.attr], rule.skips)) ==> r == attrs
    ensures rule.attr in attrs && resolve(attrs[rule.attr], base).None? ==> r == attrs
    ensures (rule.attr in attrs && Rewritable(attrs[rule.attr], rule.skips)
             && resolve(attrs[rule.attr], base).Some?)
            ==> r[rule.attr] == resolve(attrs[rule.attr], base).value
  {
    if rule.attr in attrs && Rewritable(attrs[rule.attr], rule.skips) then
      match resolve(attrs[rule.attr], base)
      case Some(u) => attrs[rule.attr := u]
      case None => attrs
    else attrs
  }

  /** `n` and all its descendants after the rewrite step. The node keeps
      its kind, its tag, its attribute names, its number of children and
      its text. */
  function RewriteNode(n: Node, rule: RefRule, base: string, resolve: Resolver): (r: Node)
    ensures r.Element? <==> n.Element?
    ensures r.Element? ==> r.tag == n.tag && r.attrs.Keys == n.attrs.Keys && |r.children| == |n.children|
    ensures NodeText(r) == NodeText(n)
    decreases n
  {
    match n
    case Element(t, a, cs, s) =>
      Element(t, if t == rule.tag then Resolved(a, rule, base, resolve) else a,
              RewriteChildren(cs, rule, base, resolve), s)
    case _ => n
  }

  function RewriteChildren(ns: seq<Node>, rule: RefRule, base: string,
                           resolve: Resolver): (rs: seq<Node>)
    ensures |rs| == |ns|
    ensures forall k {:trigger rs[k]} :: 0 <= k < |ns| ==> rs[k] == RewriteNode(ns[k], rule, base, resolve)
    ensures ChildText(rs) == ChildText(ns)
    decreases ns
  {
    if ns == [] then []
    else
      var rs := [RewriteNode(ns[0], rule, base, resolve)] + RewriteChildren(ns[1..], rule, base, resolve);
      assert rs[0] == RewriteNode(ns[0], rule, base, resolve) && rs[1..] == RewriteChildren(ns[1..], rule, base, resolve);
      rs
  }

  /** `resolveLinks(root)` / `resolveImages(root)`: every descendant of the
      root is rewritten, the root itself is not among its own query results,
      so it differs from the full rewrite only in keeping its own attributes. */
  function RewriteBelow(n: Node, rule: RefRule, base: string, resolve: Resolver): (r: Node)
    ensures !n.Element? ==> r == n
    ensures n.Element? ==> RewriteNode(n, rule, base, resolve).Element?
                           && r == RewriteNode(n, rule, base, resolve).(attrs := n.attrs)
    ensures NodeText(r) == NodeText(n)
  {
    match n
    case Element(t, a, cs, s) => Element(t, a, RewriteChildren(cs, rule, base, resolve), s)
    case _ => n
  }

  /** `n` with the rule's attribute of every element the rule selects
      replaced by "": what the rewrite cannot change. */
  function Blanked(n: Node, rule: RefRule): Node
    decreases n
  {
    match n
    case Element(t, a, cs, s) =>
      Element(t, if t == rule.tag && rule.attr in a then a[rule.attr := ""] else a,
              BlankedAll(cs, rule), s)
    case _ => n
  }

  function BlankedAll(ns: seq<Node>, rule: RefRule): (rs: seq<Node>)
    ensures |rs| == |ns|
    ensures forall k {:trigger rs[k]} :: 0 <= k < |ns| ==> rs[k] == Blanked(ns[k], rule)
    decreases ns
  {
    if ns == [] then [] else [Blanked(ns[0], rule)] + BlankedAll(ns[1..], rule)
  }

  /** The rewrite changes nothing but the rule's attribute on the elements
      the rule selects: tags, text, comments, every other attribute, the set
      of attribute names and the order and number of children all stay. */
  lemma {:induction false} RewriteKeepsRest(n: Node, rule: RefRule, base: string, resolve: Resolver)
    ensures Blanked(RewriteNode(n, rule, base, resolve), rule) == Blanked(n, rule)
    decreases n
  {
    if n.Element? {
      var cs := n.children;
      var rs := RewriteChildren(cs, rule, base, resolve);
      forall k | 0 <= k < |cs|
        ensures Blanked(rs[k], rule) == Blanked(cs[k], rule)
      {
        RewriteKeepsRest(cs[k], rule, base, resolve);
      }
      assert BlankedAll(rs, rule) == BlankedAll(cs, rule);
      if n.tag == rule.tag && rule.attr in n.attrs {
        var r := Resolved(n.attrs, rule, base, resolve);
        assert r[rule.attr := ""] == n.attrs[rule.attr := ""];
      }
    }
  }

  /** When every resolution fails, every value stays as it was. */
  lemma {:induction false} RewriteFailing(n: Node, rule: RefRule, base: string, resolve: Resolver)
    requires forall r :: resolve(r, base).None?
    ensures RewriteNode(n, rule, base, resolve) == n
    decreases n
  {
    if n.Element? {
      var cs := n.children;
      var rs := RewriteChildren(cs, rule, base, resolve);
      forall k | 0 <= k < |cs| ensures rs[k] == cs[k] {
        RewriteFailing(cs[k], rule, base, resolve);
      }
      assert rs == cs;
    }
  }

  /** Resolving a resolution gives it back: an absolute URL, resolved
      against the base, is itself. */
  ghost predicate Settles(resolve: Resolver, base: string) {
    forall r :: resolve(r, base).Some? ==> resolve(resolve(r, base).value, base) == resolve(r, base)
  }

  /** With such a resolver, a second pass changes nothing: every value is
      one the first pass could not rewrite, one it failed to resolve, or one
      it resolved, which resolves to itself. */
  lemma ResolvedTwice(attrs: map<string, string>, rule: RefRule, base: string, resolve: Resolver)
    requires Settles(resolve, base)
    ensures Resolved(Resolved(attrs, rule, base, resolve), rule, base, resolve)
         == Resolved(attrs, rule, base, resolve)
  {
    var r := Resolved(attrs, rule, base, resolve);
    if rule.attr in attrs && Rewritable(attrs[rule.attr], rule.skips)
       && resolve(attrs[rule.attr], base).Some? {
      var u := resolve(attrs[rule.attr], base).value;
      assert r[rule.attr] == u;
      assert resolve(u, base) == Some(u);
      assert r[rule.attr := u] == r;
    }
  }

  lemma {:induction false} RewriteIdempotent(n: Node, rule: RefRule, base: string, resolve: Resolver)
    requires Settles(resolve, base)
    ensures RewriteNode(RewriteNode(n, rule, base, resolve), rule, base, resolve)
         == RewriteNode(n, rule, base, resolve)
    decreases n
  {
    if n.Element? {
      var cs := n.children;
      var rs := RewriteChildren(cs, rule, base, resolve);
      var rrs := RewriteChildren(rs, rule, base, resolve);
      forall k | 0 <= k < |cs| ensures rrs[k] == rs[k] {
        RewriteIdempotent(cs[k], rule, base, resolve);
      }
      assert rrs == rs;
      if n.tag == rule.tag {
        ResolvedTwice(n.attrs, rule, base, resolve);
      }
    }
  }

  /** A selector mentions an attribute when its match depends on that
      attribute's value. */
  predicate Mentions(sel: Selector, attr: string) {
    match sel
    case Type(_) => false
    case Class(_) => attr == "class"
    case AttrEquals(a, _) => a == attr
    case AttrContains(a, _) => a == attr
  }

  /** Selectors that do not look at the rewritten attribute match a
      rewritten node exactly when they match the original. */
  lemma RewriteKeepsMatches(n: Node, sels: seq<Selector>, rule: RefRule, base: string, resolve: Resolver)
    requires forall k :: 0 <= k < |sels| ==> !Mentions(sels[k], rule.attr)
    ensures Matches(sels, RewriteNode(n, rule, base, resolve)) <==> Matches(sels, n)
  {
    if n.Element? {
      var m := RewriteNode(n, rule, base, resolve);
      forall k | 0 <= k < |sels|
        ensures MatchesElement(sels[k], m.tag, m.attrs) <==> MatchesElement(sels[k], n.tag, n.attrs)
      {
        assert !Mentions(sels[k], rule.attr);
      }
    }
  }

  /** Rewriting a forest with no match for such selectors leaves none. */
  lemma {:induction false} RewriteKeepsNoneMatching(ns: seq<Node>, sels: seq<Selector>, rule: RefRule,
                                                   base: string, resolve: Resolver)
    requires forall k :: 0 <= k < |sels| ==> !Mentions(sels[k], rule.attr)
    requires forall x :: x in Preorder(ns) ==> !Matches(sels, x)
    ensures forall x :: x in Preorder(RewriteChildren(ns, rule, base, resolve)) ==> !Matches(sels, x)
    decreases ns
  {
    if ns != [] {
      var rs := RewriteChildren(ns, rule, base, resolve);
      assert Preorder(ns) == PreorderNode(ns[0]) + Preorder(ns[1..]);
      assert Preorder(rs) == PreorderNode(rs[0]) + Preorder(rs[1..]);
      assert rs[1..] == RewriteChildren(ns[1..], rule, base, resolve);
      RewriteKeepsNoneMatching(ns[1..], sels, rule, base, resolve);
      RewriteKeepsMatches(ns[0], sels, rule, base, resolve);
      if ns[0].Element? {
        RewriteKeepsNoneMatching(ns[0].children, sels, rule, base, resolve);
      }
    }
  }
}
