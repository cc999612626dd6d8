/**
  Junk removal as a tree filter: `root.querySelectorAll(sel).forEach(el =>
  el.remove())` takes every descendant that matches out of the tree together
  with its subtree. The root itself is never among the results of its own
  `querySelectorAll`, so it always stays.
 */
module Junk {
  import opened Dom

  /** `n` after removing every descendant that matches `sels`. The node
      itself stays, with its kind, tag, attributes and shadow root, and
      loses children but never gains any. */
  function PruneNode(n: Node, sels: seq<Selector>): (r: Node)
    ensures r.Element? <==> n.Element?
    ensures !n.Element? ==> r == n
    ensures r.Element? ==> r.tag == n.tag && r.attrs == n.attrs && r.shadow == n.shadow
                           && |r.children| <= |n.children|
    decreases n
  {
    match n
    case Element(t, a, cs, s) => Element(t, a, PruneChildren(cs, sels), s)
    case _ => n
  }

  /** The sibling list `ns` after removing every node, at any depth, that
      matches `sels`: a matching node goes with everything below it. What
      is left is no longer than `ns`, and none of it matches. */
  function PruneChildren(ns: seq<Node>, sels: seq<Selector>): (rs: seq<Node>)
    ensures |rs| <= |ns|
    ensures forall k :: 0 <= k < |rs| ==> !Matches(sels, rs[k])
    decreases ns
  {
    if ns == [] then []
    else
      var head := if Matches(sels, ns[0]) then [] else [PruneNode(ns[0], sels)];
      var rest := PruneChildren(ns[1..], sels);
      assert forall k :: 0 <= k < |head| ==> !Matches(sels, head[k]);
      assert forall k :: |head| <= k < |head + rest| ==> (head + rest)[k] == rest[k - |head|];
      head + rest
  }

  /** No node of the forest `ns`, at any depth, matches `sels`: the
      `querySelectorAll` of a parent of `ns` comes back empty. */
  predicate NoneMatch(ns: seq<Node>, sels: seq<Selector>) {
    forall x :: x in Preorder(ns) ==> !Matches(sels, x)
  }

  /** A forest is free of matches exactly when its first tree's root, that
      root's children and the remaining trees are. */
  lemma NoneMatchCons(ns: seq<Node>, sels: seq<Selector>)
    requires ns != []
    ensures NoneMatch(ns, sels) <==>
      && !Matches(sels, ns[0])
      && (ns[0].Element? ==> NoneMatch(ns[0].children, sels))
      && NoneMatch(ns[1..], sels)
  {
    assert Preorder(ns) == PreorderNode(ns[0]) + Preorder(ns[1..]);
  }

  /** A selector list built from two matches what either part matches. */
  lemma MatchesAppend(a: seq<Selector>, b: seq<Selector>, x: Node)
    ensures Matches(a + b, x) <==> Matches(a, x) || Matches(b, x)
  {
    if x.Element? {
      if Matches(a + b, x) {
        var k :| 0 <= k < |a + b| && MatchesElement((a + b)[k], x.tag, x.attrs);
        if k >= |a| {
          assert b[k - |a|] == (a + b)[k];
        }
      }
      if Matches(b, x) {
        var k :| 0 <= k < |b| && MatchesElement(b[k], x.tag, x.attrs);
        assert (a + b)[|a| + k] == b[k];
      }
      if Matches(a, x) {
        var k :| 0 <= k < |a| && MatchesElement(a[k], x.tag, x.attrs);
        assert (a + b)[k] == a[k];
      }
    }
  }

  /** Removal keeps the order of what it keeps: pruning a concatenation
      prunes each part. */
  lemma {:induction false} PruneAppend(a: seq<Node>, b: seq<Node>, sels: seq<Selector>)
    ensures PruneChildren(a + b, sels) == PruneChildren(a, sels) + PruneChildren(b, sels)
    decreases a
  {
    if a == [] {
      assert a + b == b;
    } else {
      assert (a + b)[0] == a[0] && (a + b)[1..] == a[1..] + b;
      PruneAppend(a[1..], b, sels);
    }
  }

  /** Nothing else goes: a sibling that does not match stays, pruned
      below itself. */
  lemma {:induction false} PruneKeeps(ns: seq<Node>, sels: seq<Selector>, k: int)
    requires 0 <= k < |ns| && !Matches(sels, ns[k])
    ensures PruneNode(ns[k], sels) in PruneChildren(ns, sels)
    decreases k
  {
    if k > 0 {
      assert ns[1..][k - 1] == ns[k];
      PruneKeeps(ns[1..], sels, k - 1);
    }
  }

  /** Exactly the matching siblings go: one result per sibling that does
      not match. */
  lemma {:induction false} PruneCount(ns: seq<Node>, sels: seq<Selector>)
    ensures |PruneChildren(ns, sels)| == |ns| - |Filter(ns, sels)|
    decreases ns
  {
    if ns != [] {
      PruneCount(ns[1..], sels);
    }
  }

  /** No junk survives: nothing left below the root matches. */
  lemma {:induction false} PruneLeavesNone(ns: seq<Node>, sels: seq<Selector>)
    ensures NoneMatch(PruneChildren(ns, sels), sels)
    decreases ns
  {
    if ns != [] {
      var head := if Matches(sels, ns[0]) then [] else [PruneNode(ns[0], sels)];
      PruneLeavesNone(ns[1..], sels);
      if head != [] {
        if ns[0].Element? {
          PruneLeavesNone(ns[0].children, sels);
        }
        NoneMatchCons(head, sels);
        assert head[1..] == [];
      }
      assert Preorder(head + PruneChildren(ns[1..], sels))
          == Preorder(head) + Preorder(PruneChildren(ns[1..], sels)) by {
        PreorderAppend(head, PruneChildren(ns[1..], sels));
      }
    }
  }

  lemma {:induction false} PreorderAppend(a: seq<Node>, b: seq<Node>)
    ensures Preorder(a + b) == Preorder(a) + Preorder(b)
    decreases a
  {
    if a == [] {
      assert a + b == b;
    } else {
      assert (a + b)[0] == a[0] && (a + b)[1..] == a[1..] + b;
      PreorderAppend(a[1..], b);
    }
  }

  /** Removing from a forest that holds no match changes nothing. */
  lemma {:induction false} PruneNoneMatch(ns: seq<Node>, sels: seq<Selector>)
    requires NoneMatch(ns, sels)
    ensures PruneChildren(ns, sels) == ns
    decreases ns
  {
    if ns != [] {
      NoneMatchCons(ns, sels);
      PruneNoneMatch(ns[1..], sels);
      if ns[0].Element? {
        PruneNoneMatch(ns[0].children, sels);
      }
      assert ns == [ns[0]] + ns[1..];
    }
  }

  /** Junk removal is idempotent: a second pass removes nothing. */
  lemma PruneIdempotent(n: Node, sels: seq<Selector>)
    ensures PruneNode(PruneNode(n, sels), sels) == PruneNode(n, sels)
  {
    if n.Element? {
      PruneLeavesNone(n.children, sels);
      PruneNoneMatch(PruneChildren(n.children, sels), sels);
    }
  }

  /** Two removal passes, one after the other, remove exactly what one pass
      with both selector lists removes. */
  lemma {:induction false} PruneChildrenCompose(ns: seq<Node>, a: seq<Selector>, b: seq<Selector>)
    ensures PruneChildren(PruneChildren(ns, a), b) == PruneChildren(ns, a + b)
    decreases ns
  {
    if ns != [] {
      var x := ns[0];
      MatchesAppend(a, b, x);
      PruneChildrenCompose(ns[1..], a, b);
      var head := if Matches(a, x) then [] else [PruneNode(x, a)];
      PruneAppend(head, PruneChildren(ns[1..], a), b);
      if !Matches(a, x) {
        if x.Element? {
          PruneChildrenCompose(x.children, a, b);
        }
        assert [PruneNode(x, a)][1..] == [];
      }
    }
  }

  lemma PruneCompose(n: Node, a: seq<Selector>, b: seq<Selector>)
    ensures PruneNode(PruneNode(n, a), b) == PruneNode(n, a + b)
  {
    if n.Element? {
      PruneChildrenCompose(n.children, a, b);
    }
  }

  /** An empty selector list removes nothing. */
  lemma PruneNothing(n: Node)
    ensures PruneNode(n, []) == n
  {
    if n.Element? {
      assert NoneMatch(n.children, []);
      PruneNoneMatch(n.children, []);
    }
  }
}
