/** The walk `collect_ids` inside `Element.update` (element.py:140-147), on a
    snapshot of the element tree. `ElementTree.Client.CollectIds` walks the
    live objects and is proved to return `PostOrder` of the snapshot. */
module Subtree {
  import opened Containers

  /** For every element id, the child id lists of its slots in slot order;
      every id is below `next`, the client's next free id. */
  datatype Forest = Forest(next: int, nodes: map<int, seq<seq<int>>>)

  function Flatten(lists: seq<seq<int>>): (r: seq<int>)
  {
    if lists == [] then [] else lists[0] + Flatten(lists[1..])
  }

  lemma {:induction false} FlattenAppend(a: seq<seq<int>>, b: seq<seq<int>>)
    ensures Flatten(a + b) == Flatten(a) + Flatten(b)
  {
    if a != [] {
      assert (a + b)[1..] == a[1..] + b;
      FlattenAppend(a[1..], b);
    } else {
      assert a + b == b;
    }
  }

  lemma {:induction false} FlattenMembers(lists: seq<seq<int>>, c: int)
    ensures c in Flatten(lists) <==> exists k | 0 <= k < |lists| :: c in lists[k]
  {
    if lists != [] {
      FlattenMembers(lists[1..], c);
      if exists k | 0 <= k < |lists| :: c in lists[k] {
        var k :| 0 <= k < |lists| && c in lists[k];
        if k > 0 { assert lists[1..][k - 1] == lists[k]; }
      }
      if exists k | 0 <= k < |lists[1..]| :: c in lists[1..][k] {
        var k :| 0 <= k < |lists[1..]| && c in lists[1..][k];
        assert lists[k + 1] == lists[1..][k];
      }
    }
  }

  /** The children of element `i`, all its slots taken in order. */
  function Children(f: Forest, i: int): (r: seq<int>)
    requires i in f.nodes
  {
    Flatten(f.nodes[i])
  }

  /** Every id is registered and below `next`, and every child was created
      after its parent, so it has a larger id. */
  predicate WellFormed(f: Forest)
  {
    forall i | i in f.nodes :: i < f.next && forall c | c in Children(f, i) :: c in f.nodes && i < c
  }

  /** `collect_ids(id)`: the ids of the subtree of `id`, the children's
      subtrees first, in slot and child order, then `id` itself. */
  function PostOrder(f: Forest, id: int): (r: seq<int>)
    requires WellFormed(f) && id in f.nodes
    ensures |r| >= 1 && r[|r| - 1] == id
    ensures forall x | x in r :: x in f.nodes && id <= x
    decreases f.next - id, 1
  {
    PostOrderAll(f, id, Children(f, id)) + [id]
  }

  /** The subtrees of the children `cs` of `parent`, one after the other. */
  function PostOrderAll(f: Forest, parent: int, cs: seq<int>): (r: seq<int>)
    requires WellFormed(f) && parent in f.nodes
    requires forall c | c in cs :: c in f.nodes && parent < c
    ensures forall x | x in r :: x in f.nodes && parent < x
    decreases f.next - parent, 0, |cs|
  {
    if cs == [] then []
    else
      assert cs[0] in cs && forall c | c in cs[1..] :: c in cs;
      PostOrder(f, cs[0]) + PostOrderAll(f, parent, cs[1..])
  }

  lemma {:induction false} PostOrderAllAppend(f: Forest, parent: int, a: seq<int>, b: seq<int>)
    requires WellFormed(f) && parent in f.nodes
    requires forall c | c in a + b :: c in f.nodes && parent < c
    ensures PostOrderAll(f, parent, a + b) == PostOrderAll(f, parent, a) + PostOrderAll(f, parent, b)
  {
    if a == [] {
      assert a + b == b;
    } else {
      assert (a + b)[0] == a[0];
      assert (a + b)[1..] == a[1..] + b;
      assert forall c | c in a[1..] + b :: c in a + b;
      PostOrderAllAppend(f, parent, a[1..], b);
    }
  }
  /** The subtrees of the first `j` children in `cs`. */
  function PostOrderFirst(f: Forest, parent: int, cs: seq<int>, j: nat): (r: seq<int>)
    requires WellFormed(f) && parent in f.nodes
    requires forall c | c in cs :: c in f.nodes && parent < c
    requires j <= |cs|
  {
    assert forall c | c in cs[..j] :: c in cs;
    PostOrderAll(f, parent, cs[..j])
  }

  /** One more child: its subtree follows those of the earlier children;
      all children taken give `PostOrderAll`. */
  lemma PostOrderFirstStep(f: Forest, parent: int, cs: seq<int>, j: nat)
    requires WellFormed(f) && parent in f.nodes
    requires forall c | c in cs :: c in f.nodes && parent < c
    requires j < |cs|
    ensures PostOrderFirst(f, parent, cs, j + 1) == PostOrderFirst(f, parent, cs, j) + PostOrder(f, cs[j])
  {
    assert cs[..j + 1] == cs[..j] + [cs[j]];
    assert forall c | c in cs[..j] + [cs[j]] :: c in cs;
    PostOrderAllAppend(f, parent, cs[..j], [cs[j]]);
    assert PostOrderAll(f, parent, [cs[j]]) == PostOrder(f, cs[j]) + PostOrderAll(f, parent, []);
  }

  lemma PostOrderFirstAll(f: Forest, parent: int, cs: seq<int>)
    requires WellFormed(f) && parent in f.nodes
    requires forall c | c in cs :: c in f.nodes && parent < c
    ensures PostOrderFirst(f, parent, cs, |cs|) == PostOrderAll(f, parent, cs)
  {
    assert cs[..|cs|] == cs;
  }

  lemma FlattenPrefix(lists: seq<seq<int>>, k: nat)
    requires k <= |lists|
    ensures Flatten(lists) == Flatten(lists[..k]) + Flatten(lists[k..])
  {
    assert lists == lists[..k] + lists[k..];
    FlattenAppend(lists[..k], lists[k..]);
  }

  /** The subtrees of the children of the first `k` slots of `parent`. */
  function PostOrderSlots(f: Forest, parent: int, k: nat): (r: seq<int>)
    requires WellFormed(f) && parent in f.nodes && k <= |f.nodes[parent]|
    ensures forall x | x in r :: x in f.nodes && parent < x
  {
    FlattenPrefix(f.nodes[parent], k);
    PostOrderAll(f, parent, Flatten(f.nodes[parent][..k]))
  }

  /** Slot `k` adds the subtrees of its children; they are all children of
      `parent`. */
  lemma PostOrderSlotsStep(f: Forest, parent: int, k: nat)
    requires WellFormed(f) && parent in f.nodes && k < |f.nodes[parent]|
    ensures forall c | c in f.nodes[parent][k] :: c in f.nodes && parent < c
    ensures PostOrderSlots(f, parent, k + 1)
         == PostOrderSlots(f, parent, k) + PostOrderAll(f, parent, f.nodes[parent][k])
  {
    var lists := f.nodes[parent];
    forall c | c in lists[k] ensures c in f.nodes && parent < c {
      FlattenMembers(lists, c);
      assert 0 <= k < |lists| && c in lists[k];
      assert c in Children(f, parent);
    }
    FlattenPrefix(lists, k + 1);
    FlattenPrefix(lists, k);
    assert lists[..k + 1] == lists[..k] + [lists[k]];
    FlattenAppend(lists[..k], [lists[k]]);
    assert Flatten([lists[k]]) == lists[k] + Flatten([]);
    assert Flatten(lists[..k + 1]) == Flatten(lists[..k]) + lists[k];
    PostOrderAllAppend(f, parent, Flatten(lists[..k]), lists[k]);
    assert PostOrderSlots(f, parent, k + 1) == PostOrderAll(f, parent, Flatten(lists[..k]) + lists[k]);
  }


  /** All slots taken, then `parent` itself: the post-order of `parent`. */
  lemma PostOrderSlotsAll(f: Forest, parent: int)
    requires WellFormed(f) && parent in f.nodes
    ensures PostOrderSlots(f, parent, |f.nodes[parent]|) + [parent] == PostOrder(f, parent)
  {
    assert f.nodes[parent][..|f.nodes[parent]|] == f.nodes[parent];
  }


  /** `x` belongs to the subtree owned by `a`: it is `a` or in the subtree of
      one of `a`'s children. */
  predicate InSubtree(f: Forest, a: int, x: int)
    requires WellFormed(f) && a in f.nodes
    decreases f.next - a
  {
    x == a || exists c | c in Children(f, a) :: InSubtree(f, c, x)
  }

  /** Nothing above `a` (no ancestor) is in its subtree. */
  lemma {:induction false} InSubtreeAbove(f: Forest, a: int, x: int)
    requires WellFormed(f) && a in f.nodes
    requires InSubtree(f, a, x)
    ensures a <= x && x in f.nodes
    decreases f.next - a
  {
    if x != a {
      var c :| c in Children(f, a) && InSubtree(f, c, x);
      InSubtreeAbove(f, c, x);
    }
  }

  /** Each element is a child of at most one element, and is listed once
      among that element's children: the forest is a tree, not a DAG. */
  predicate UniqueParents(f: Forest)
  {
    && (forall i | i in f.nodes :: NoDup(Children(f, i)))
    && (forall i, j, c | i in f.nodes && j in f.nodes && c in Children(f, i) && c in Children(f, j) :: i == j)
  }

  /** Child lists that are each duplicate-free and share no element flatten
      to a duplicate-free list. */
  lemma {:induction false} FlattenNoDup(lists: seq<seq<int>>)
    requires forall k | 0 <= k < |lists| :: NoDup(lists[k])
    requires forall k1, k2, c | 0 <= k1 < |lists| && 0 <= k2 < |lists| && c in lists[k1] && c in lists[k2] :: k1 == k2
    ensures NoDup(Flatten(lists))
  {
    if lists != [] {
      var rest := lists[1..];
      forall k | 0 <= k < |rest| ensures rest[k] == lists[k + 1] { }
      FlattenNoDup(rest);
      forall c | c in lists[0] ensures c !in Flatten(rest) {
        FlattenMembers(rest, c);
      }
      NoDupAppend(lists[0], Flatten(rest));
    }
  }

  /** An element strictly inside the subtree of `a` has a parent there. */
  lemma {:induction false} ParentInSubtree(f: Forest, a: int, x: int)
    requires WellFormed(f) && a in f.nodes
    requires InSubtree(f, a, x) && x != a
    ensures exists y | y in f.nodes :: InSubtree(f, a, y) && x in Children(f, y)
    decreases f.next - a
  {
    var c :| c in Children(f, a) && InSubtree(f, c, x);
    if x != c {
      ParentInSubtree(f, c, x);
      var y :| y in f.nodes && InSubtree(f, c, y) && x in Children(f, y);
      assert InSubtree(f, a, y);
    }
  }

  /** In a tree, two subtrees that share an element are nested. */
  lemma {:induction false} SubtreesNested(f: Forest, a: int, b: int, x: int)
    requires WellFormed(f) && UniqueParents(f) && a in f.nodes && b in f.nodes
    requires InSubtree(f, a, x) && InSubtree(f, b, x)
    ensures InSubtree(f, a, b) || InSubtree(f, b, a)
    decreases x - a
  {
    InSubtreeAbove(f, a, x);
    if x != a && x != b {
      ParentInSubtree(f, a, x);
      var y :| y in f.nodes && InSubtree(f, a, y) && x in Children(f, y);
      ParentInSubtree(f, b, x);
      var z :| z in f.nodes && InSubtree(f, b, z) && x in Children(f, z);
      assert y == z;
      InSubtreeAbove(f, a, y);
      SubtreesNested(f, a, b, y);
    }
  }

  /** The subtrees of two different children of one element are disjoint. */
  lemma SiblingsDisjoint(f: Forest, p: int, c1: int, c2: int, x: int)
    requires WellFormed(f) && UniqueParents(f) && p in f.nodes
    requires c1 in Children(f, p) && c2 in Children(f, p) && c1 != c2
    ensures !(InSubtree(f, c1, x) && InSubtree(f, c2, x))
  {
    if InSubtree(f, c1, x) && InSubtree(f, c2, x) {
      SubtreesNested(f, c1, c2, x);
      var a := if InSubtree(f, c1, c2) then c1 else c2;
      var b := if a == c1 then c2 else c1;
      ParentInSubtree(f, a, b);
      var y :| y in f.nodes && InSubtree(f, a, y) && b in Children(f, y);
      InSubtreeAbove(f, a, y);
      assert false;
    }
  }

  /** In a tree, `collect_ids` lists every element of the subtree once. */
  lemma {:induction false} PostOrderNoDup(f: Forest, id: int)
    requires WellFormed(f) && UniqueParents(f) && id in f.nodes
    ensures NoDup(PostOrder(f, id))
    decreases f.next - id, 1
  {
    var cs := Children(f, id);
    PostOrderAllNoDup(f, id, cs);
    NoDupAppend(PostOrderAll(f, id, cs), [id]);
  }

  lemma {:induction false} PostOrderAllNoDup(f: Forest, parent: int, cs: seq<int>)
    requires WellFormed(f) && UniqueParents(f) && parent in f.nodes
    requires NoDup(cs) && forall c | c in cs :: c in Children(f, parent)
    ensures forall c | c in cs :: c in f.nodes && parent < c
    ensures NoDup(PostOrderAll(f, parent, cs))
    decreases f.next - parent, 0, |cs|
  {
    if cs != [] {
      var c0, rest := cs[0], cs[1..];
      assert c0 in cs && forall c | c in rest :: c in cs;
      assert NoDup(rest) by {
        forall i, j | 0 <= i < j < |rest| ensures rest[i] != rest[j] { assert rest[i] == cs[i + 1] && rest[j] == cs[j + 1]; }
      }
      PostOrderNoDup(f, c0);
      PostOrderAllNoDup(f, parent, rest);
      forall x | x in PostOrder(f, c0) ensures x !in PostOrderAll(f, parent, rest) {
        PostOrderMembers(f, c0, x);
        PostOrderAllMembers(f, parent, rest, x);
        if x in PostOrderAll(f, parent, rest) {
          var c :| c in rest && InSubtree(f, c, x);
          var k :| 0 <= k < |rest| && rest[k] == c;
          assert cs[k + 1] == c;
          SiblingsDisjoint(f, parent, c0, c, x);
        }
      }
      NoDupAppend(PostOrder(f, c0), PostOrderAll(f, parent, rest));
    }
  }

  /** `collect_ids` collects exactly the subtree owned by `id`: every
      descendant and `id` itself, and nothing else. */
  lemma {:induction false} PostOrderMembers(f: Forest, id: int, x: int)
    requires WellFormed(f) && id in f.nodes
    ensures x in PostOrder(f, id) <==> InSubtree(f, id, x)
    decreases f.next - id, 1
  {
    PostOrderAllMembers(f, id, Children(f, id), x);
  }

  lemma {:induction false} PostOrderAllMembers(f: Forest, parent: int, cs: seq<int>, x: int)
    requires WellFormed(f) && parent in f.nodes
    requires forall c | c in cs :: c in f.nodes && parent < c
    ensures x in PostOrderAll(f, parent, cs) <==> exists c | c in cs :: InSubtree(f, c, x)
    decreases f.next - parent, 0, |cs|
  {
    if cs != [] {
      assert cs[0] in cs;
      PostOrderMembers(f, cs[0], x);
      assert forall c | c in cs[1..] :: c in cs;
      PostOrderAllMembers(f, parent, cs[1..], x);
      if exists c | c in cs :: InSubtree(f, c, x) {
        var c :| c in cs && InSubtree(f, c, x);
        if c != cs[0] { assert c in cs[1..]; }
      }
    }
  }

  /** Every position of `s` is preceded by the whole subtree of the element
      there: children are listed before their ancestors. */
  ghost predicate DescendantsFirst(f: Forest, s: seq<int>)
    requires WellFormed(f)
    requires forall x | x in s :: x in f.nodes
  {
    forall k, y | 0 <= k < |s| && InSubtree(f, s[k], y) :: y in s[..k + 1]
  }

  lemma DescendantsFirstAppend(f: Forest, a: seq<int>, b: seq<int>)
    requires WellFormed(f)
    requires forall x | x in a + b :: x in f.nodes
    requires DescendantsFirst(f, a) && DescendantsFirst(f, b)
    ensures DescendantsFirst(f, a + b)
  {
    var s := a + b;
    forall k, y | 0 <= k < |s| && InSubtree(f, s[k], y) ensures y in s[..k + 1] {
      if k < |a| {
        assert s[k] == a[k];
        assert y in a[..k + 1];
        assert a[..k + 1] == s[..k + 1];
      } else {
        assert s[k] == b[k - |a|];
        assert y in b[..k - |a| + 1];
        assert s[..k + 1] == a + b[..k - |a| + 1];
      }
    }
  }

  /** `collect_ids` lists every element after all of its descendants. */
  lemma {:induction false} PostOrderDescendantsFirst(f: Forest, id: int)
    requires WellFormed(f) && id in f.nodes
    ensures DescendantsFirst(f, PostOrder(f, id))
    decreases f.next - id, 1
  {
    var cs := Children(f, id);
    var l := PostOrderAll(f, id, cs);
    PostOrderAllDescendantsFirst(f, id, cs);
    forall y | InSubtree(f, id, y) ensures y in l + [id] {
      PostOrderMembers(f, id, y);
    }
    DescendantsFirstLast(f, l, id);
  }

  /** Appending `id` after a list that holds all of its subtree keeps the
      descendants-first order. */
  lemma DescendantsFirstLast(f: Forest, l: seq<int>, id: int)
    requires WellFormed(f) && id in f.nodes
    requires forall x | x in l :: x in f.nodes
    requires DescendantsFirst(f, l)
    requires forall y | InSubtree(f, id, y) :: y in l + [id]
    ensures DescendantsFirst(f, l + [id])
  {
    var r := l + [id];
    forall k, y | 0 <= k < |r| && InSubtree(f, r[k], y) ensures y in r[..k + 1] {
      if k < |l| {
        assert r[k] == l[k] && l[..k + 1] == r[..k + 1];
      } else {
        assert r[..k + 1] == r;
      }
    }
  }

  lemma {:induction false} PostOrderAllDescendantsFirst(f: Forest, parent: int, cs: seq<int>)
    requires WellFormed(f) && parent in f.nodes
    requires forall c | c in cs :: c in f.nodes && parent < c
    ensures DescendantsFirst(f, PostOrderAll(f, parent, cs))
    decreases f.next - parent, 0, |cs|
  {
    if cs != [] {
      assert cs[0] in cs;
      PostOrderDescendantsFirst(f, cs[0]);
      assert forall c | c in cs[1..] :: c in cs;
      PostOrderAllDescendantsFirst(f, parent, cs[1..]);
      DescendantsFirstAppend(f, PostOrder(f, cs[0]), PostOrderAll(f, parent, cs[1..]));
    }
  }

  /** A leaf's update batch holds only the leaf. */
  lemma PostOrderLeaf(f: Forest, id: int)
    requires WellFormed(f) && id in f.nodes
    requires Children(f, id) == []
    ensures PostOrder(f, id) == [id]
  {
  }
}
