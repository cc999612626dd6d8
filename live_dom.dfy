/**
  DOM nodes as objects on the heap, for the code that changes a tree in place
  (`cloneNode`, `remove`, `setAttribute`). Each object carries, as ghost
  state, the value (`Dom.Node`) that its subtree currently stands for and
  the set of objects that make up its subtree.
 */
module LiveDom {
  import opened Dom

  datatype Kind = ElementKind | TextKind | CommentKind

  class LiveNode {
    const kind: Kind
    const tag: string
    const data: string
    /** The node's shadow root, read but never changed by the modelled code. */
    const shadow: Shadow
    var attrs: map<string, string>
    var children: seq<LiveNode>

    /** The subtree's current value. */
    ghost var model: Node
    /** The objects of the subtree: this node and its descendants. */
    ghost const Repr: set<object>

    /** A tree: every child owns a part of `Repr` that excludes this node and
        every other child's part, and `model` is the value of the subtree. */
    ghost predicate Valid()
      reads this, Repr
      decreases Repr
    {
      && this in Repr
      && (forall i :: 0 <= i < |children| ==>
            children[i] in Repr && children[i].Repr <= Repr && this !in children[i].Repr)
      && (forall i, j :: 0 <= i < j < |children| ==> children[i].Repr !! children[j].Repr)
      && (forall i :: 0 <= i < |children| ==> children[i].Valid())
      && Stands(model, kind, tag, data, attrs, shadow)
      && (kind == ElementKind ==> Mirrors(children, model.children))
      && (kind != ElementKind ==> children == [])
    }

    /** A node with these parts, over children that are trees of their own. */
    constructor (kind: Kind, tag: string, data: string, shadow: Shadow,
                 attrs: map<string, string>, children: seq<LiveNode>, ghost models: seq<Node>)
      requires forall i :: 0 <= i < |children| ==> children[i].Valid()
      requires forall i, j :: 0 <= i < j < |children| ==> children[i].Repr !! children[j].Repr
      requires Mirrors(children, models)
      requires kind != ElementKind ==> children == []
      ensures Valid()
      ensures this.kind == kind && this.tag == tag && this.data == data && this.shadow == shadow
      ensures this.attrs == attrs && this.children == children
      ensures model == ValueOf(kind, tag, data, attrs, models, shadow)
      ensures Repr == {this} + ReprOf(children)
    {
      this.kind := kind;
      this.tag := tag;
      this.data := data;
      this.shadow := shadow;
      this.attrs := attrs;
      this.children := children;
      model := ValueOf(kind, tag, data, attrs, models, shadow);
      Repr := {this} + ReprOf(children);
    }

    /** `node.cloneNode(true)`: a fresh copy of the subtree. Shadow roots are
        not copied, as `attachShadow` makes them unclonable by default. */
    method CloneNode() returns (copy: LiveNode)
      requires Valid()
      ensures copy.Valid() && fresh(copy.Repr)
      ensures copy.model == Unshadowed(model)
      decreases Repr
    {
      ghost var ms: seq<Node> := if kind == ElementKind then model.children else [];
      assert Owned(children, ms, Repr);
      var copies := CloneAll(children, ms, Repr);
      copy := new LiveNode(kind, tag, data, NoShadow, attrs, copies, UnshadowedAll(ms));
    }
  }

  /** The deep copies of a list of sibling subtrees standing for `ms`, all
      owned by a node whose objects are `owner`, for `cloneNode(true)`:
      separate fresh trees standing for `ms` without shadow roots. */
  method CloneAll(cs: seq<LiveNode>, ghost ms: seq<Node>, ghost owner: set<object>)
      returns (copies: seq<LiveNode>)
    requires Owned(cs, ms, owner)
    ensures Forest(copies) && Mirrors(copies, UnshadowedAll(ms))
    ensures fresh(ReprOf(copies))
    decreases owner, |cs|
  {
    if cs == [] {
      return [];
    }
    OwnedFirst(cs, ms, owner);
    var first := cs[0].CloneNode();
    var rest := CloneAll(cs[1..], ms[1..], owner);
    copies := [first] + rest;
    ReprOfCons(first, rest);
    assert first.Repr !! ReprOf(rest);
    ForestCons(first, rest);
    CopiesCons(first, rest, ms);
  }

  /** The objects of a list of subtrees, one subtree at a time. */
  lemma ReprOfCons(c: LiveNode, cs: seq<LiveNode>)
    ensures ReprOf([c] + cs) == c.Repr + ReprOf(cs)
    ensures forall k :: 0 <= k < |cs| ==> cs[k].Repr <= ReprOf(cs)
  {
    var all := [c] + cs;
    forall o | o in ReprOf(all) ensures o in c.Repr + ReprOf(cs) {
      var k :| 0 <= k < |all| && o in all[k].Repr;
      if k > 0 {
        assert all[k] == cs[k - 1];
      }
    }
    forall o | o in ReprOf(cs) ensures o in ReprOf(all) {
      var k :| 0 <= k < |cs| && o in cs[k].Repr;
      assert all[k + 1] == cs[k];
    }
    forall o | o in c.Repr ensures o in ReprOf(all) {
      assert all[0] == c;
    }
  }

  /** Copies standing for the first value and the rest of `ms` without
      shadow roots stand for all of it. */
  lemma CopiesCons(first: LiveNode, rest: seq<LiveNode>, ms: seq<Node>)
    requires ms != [] && first.model == Unshadowed(ms[0])
    requires Mirrors(rest, UnshadowedAll(ms[1..]))
    ensures Mirrors([first] + rest, UnshadowedAll(ms))
  {
    forall k | 1 <= k < |ms| ensures ([first] + rest)[k].model == UnshadowedAll(ms)[k] {
      assert ([first] + rest)[k] == rest[k - 1] && ms[1..][k - 1] == ms[k];
    }
  }

  /** Trees standing for `ms`, each strictly inside `owner`. */
  ghost predicate Owned(cs: seq<LiveNode>, ms: seq<Node>, owner: set<object>)
    reads cs, set k, o | 0 <= k < |cs| && o in cs[k].Repr :: o
  {
    && (forall i :: 0 <= i < |cs| ==> cs[i].Valid() && cs[i].Repr < owner)
    && Mirrors(cs, ms)
  }

  /** The first of such trees, and the rest of them. */
  lemma OwnedFirst(cs: seq<LiveNode>, ms: seq<Node>, owner: set<object>)
    requires cs != [] && Owned(cs, ms, owner)
    ensures cs[0].Valid() && cs[0].Repr < owner && cs[0].model == ms[0]
    ensures Owned(cs[1..], ms[1..], owner)
  {
    forall i | 0 <= i < |cs| - 1
      ensures cs[1..][i].Valid() && cs[1..][i].Repr < owner && cs[1..][i].model == ms[1..][i]
    {
      assert cs[1..][i] == cs[i + 1];
    }
  }

  /** The value of a node with these parts. */
  function ValueOf(kind: Kind, tag: string, data: string, attrs: map<string, string>,
                   children: seq<Node>, shadow: Shadow): Node {
    match kind
    case ElementKind => Element(tag, attrs, children, shadow)
    case TextKind => Text(data)
    case CommentKind => Comment(data)
  }

  /** `model` is the value of a node with these parts, whatever its children. */
  predicate Stands(model: Node, kind: Kind, tag: string, data: string,
                   attrs: map<string, string>, shadow: Shadow) {
    match kind
    case ElementKind => model.Element? && model.tag == tag && model.attrs == attrs && model.shadow == shadow
    case TextKind => model == Text(data)
    case CommentKind => model == Comment(data)
  }

  /** Each object of `cs` stands for the value at the same index of `ms`. */
  ghost predicate Mirrors(cs: seq<LiveNode>, ms: seq<Node>)
    reads cs
  {
    |cs| == |ms| && forall i :: 0 <= i < |cs| ==> cs[i].model == ms[i]
  }

  /** Sibling subtrees that are trees and share no object. */
  ghost predicate Forest(cs: seq<LiveNode>)
    reads cs, set k, o | 0 <= k < |cs| && o in cs[k].Repr :: o
  {
    && (forall i :: 0 <= i < |cs| ==> cs[i].Valid())
    && (forall i, j :: 0 <= i < j < |cs| ==> cs[i].Repr !! cs[j].Repr)
  }

  /** A tree apart from a forest extends it at the front. */
  lemma ForestCons(c: LiveNode, cs: seq<LiveNode>)
    requires c.Valid() && Forest(cs)
    requires forall k :: 0 <= k < |cs| ==> c.Repr !! cs[k].Repr
    ensures Forest([c] + cs)
  {
    var all := [c] + cs;
    forall i | 1 <= i < |all| ensures all[i].Valid() {
      assert all[i] == cs[i - 1];
    }
    forall i, j | 0 <= i < j < |all| ensures all[i].Repr !! all[j].Repr {
      assert all[j] == cs[j - 1];
      if i > 0 {
        assert all[i] == cs[i - 1];
      }
    }
  }

  /** Mirroring extends one object at a time at the front. */
  lemma MirrorsCons(c: LiveNode, cs: seq<LiveNode>, m: Node, ms: seq<Node>)
    requires c.model == m && Mirrors(cs, ms)
    ensures Mirrors([c] + cs, [m] + ms)
  {
    forall i | 1 <= i < |cs| + 1
      ensures ([c] + cs)[i].model == ([m] + ms)[i]
    {
      assert ([c] + cs)[i] == cs[i - 1] && ([m] + ms)[i] == ms[i - 1];
    }
  }

  /** The first tree of a forest, the rest of it, and how they lie apart. */
  lemma FirstApart(cs: seq<LiveNode>)
    requires cs != [] && Forest(cs)
    ensures cs[0].Valid() && Forest(cs[1..])
    ensures cs[0].Repr !! ReprOf(cs[1..])
    ensures cs[0].Repr <= ReprOf(cs) && ReprOf(cs[1..]) <= ReprOf(cs)
  {
    forall o | o in ReprOf(cs[1..]) ensures o !in cs[0].Repr && o in ReprOf(cs) {
      var k :| 0 <= k < |cs[1..]| && o in cs[1..][k].Repr;
      assert cs[1..][k] == cs[k + 1];
    }
    forall i, j | 0 <= i < j < |cs[1..]| ensures cs[1..][i].Repr !! cs[1..][j].Repr {
      assert cs[1..][i] == cs[i + 1] && cs[1..][j] == cs[j + 1];
    }
  }

  /** A tree none of whose objects changed is still the same tree. */
  twostate lemma StillValid(n: LiveNode)
    requires old(n.Valid())
    requires unchanged(n) && unchanged(n.Repr)
    ensures n.Valid()
  {
  }

  /** A forest none of whose objects changed is still the same forest. */
  twostate lemma StillForest(cs: seq<LiveNode>)
    requires old(Forest(cs))
    requires unchanged(cs) && unchanged(old(ReprOf(cs)))
    ensures Forest(cs)
  {
  }

  /** The objects of a list of subtrees. */
  ghost function ReprOf(cs: seq<LiveNode>): set<object>
    reads cs
  {
    set k, o | 0 <= k < |cs| && o in cs[k].Repr :: o
  }

  /** A value with every shadow root dropped. */
  function Unshadowed(n: Node): Node
    decreases n
  {
    match n
    case Element(t, a, cs, _) => Element(t, a, UnshadowedAll(cs), NoShadow)
    case _ => n
  }

  function UnshadowedAll(ns: seq<Node>): (rs: seq<Node>)
    ensures |rs| == |ns|
    ensures forall k {:trigger rs[k]} :: 0 <= k < |ns| ==> rs[k] == Unshadowed(ns[k])
    decreases ns
  {
    if ns == [] then [] else [Unshadowed(ns[0])] + UnshadowedAll(ns[1..])
  }
}
