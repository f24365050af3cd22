/** The class list of an element: the merge done by `Element.classes`
    (element.py:72-76) and the `'hidden'` toggle of
    `Element.on_visibility_change` (element.py:32-38), as functions on the
    list. The element methods that store the result are in element.dfy. */
module ClassList {
  import opened Wrappers
  import opened PyStr
  import opened Containers

  /** The class list `classes(add, remove=remove, replace=replace)` computes:
      start from the current list (or from nothing when `replace` is given,
      even an empty one), drop every class named in `remove`, append the
      tokens of `add` and then of `replace`, and keep first occurrences. */
  function MergeClasses(current: seq<string>, add: Option<string>, remove: Option<string>,
                        replace: Option<string>): (r: seq<string>)
  {
    var base := if replace.None? then current else [];
    var kept := Without(base, Words(OrEmpty(remove)));
    Dedupe(kept + Words(OrEmpty(add)) + Words(OrEmpty(replace)))
  }

  /** The merged list has no duplicates, and holds a class exactly when it is
      a kept old class (not replaced, not removed) or a token of `add` or of
      `replace`: a class named in `remove` is gone unless `add` or `replace`
      names it again. */
  lemma MergeClassesMembers(current: seq<string>, add: Option<string>, remove: Option<string>,
                            replace: Option<string>)
    ensures var r := MergeClasses(current, add, remove, replace);
            && NoDup(r)
            && forall c ::
                 c in r <==>
                   || (replace.None? && c in current && c !in Words(OrEmpty(remove)))
                   || c in Words(OrEmpty(add))
                   || c in Words(OrEmpty(replace))
  {
    var base := if replace.None? then current else [];
    var kept := Without(base, Words(OrEmpty(remove)));
    DedupeSpec(kept + Words(OrEmpty(add)) + Words(OrEmpty(replace)));
  }

  /** Without `replace`, and with a duplicate-free current list, the surviving
      old classes stay first in their old order and the new tokens of `add`
      follow, each at its first occurrence. */
  lemma MergeClassesKeepsOrder(current: seq<string>, add: Option<string>, remove: Option<string>)
    requires NoDup(current)
    ensures var kept := Without(current, Words(OrEmpty(remove)));
            MergeClasses(current, add, remove, None)
              == kept + Dedupe(Without(Words(OrEmpty(add)), kept))
  {
    var kept := Without(current, Words(OrEmpty(remove)));
    WithoutNoDup(current, Words(OrEmpty(remove)));
    assert Words(OrEmpty(None)) == [];
    assert kept + Words(OrEmpty(add)) + [] == kept + Words(OrEmpty(add));
    DedupePrefix(kept, Words(OrEmpty(add)));
  }

  /** With `replace` given, the result is `add` then `replace` deduplicated:
      neither the old classes nor `remove` play any part. */
  lemma MergeClassesReplace(current: seq<string>, add: Option<string>, remove: Option<string>,
                            replace: string)
    ensures MergeClasses(current, add, remove, Some(replace))
              == Dedupe(Words(OrEmpty(add)) + Words(replace))
  {
    assert Without([], Words(OrEmpty(remove))) == [];
    assert [] + Words(OrEmpty(add)) == Words(OrEmpty(add));
  }

  /** Adding classes that are all present already leaves a duplicate-free list
      as it is; so `classes(add=x)` is idempotent. */
  lemma MergeClassesPresent(current: seq<string>, add: string)
    requires NoDup(current)
    requires forall w | w in Words(add) :: w in current
    ensures MergeClasses(current, Some(add), None, None) == current
  {
    assert Words(OrEmpty(None)) == [];
    WithoutNothing(current);
    assert current + Words(add) + [] == current + Words(add);
    DedupeAbsorbs(current, Words(add));
  }

  lemma MergeClassesIdempotent(current: seq<string>, add: string)
    ensures var once := MergeClasses(current, Some(add), None, None);
            MergeClasses(once, Some(add), None, None) == once
  {
    var once := MergeClasses(current, Some(add), None, None);
    MergeClassesMembers(current, Some(add), None, None);
    MergeClassesPresent(once, add);
  }

  // ------------------------------------------------- on_visibility_change

  const Hidden: string := "hidden"

  /** `list.remove(x)`: drops the first occurrence of `x`. */
  function RemoveFirst(xs: seq<string>, x: string): (r: seq<string>)
  {
    if xs == [] then []
    else if xs[0] == x then xs[1..]
    else [xs[0]] + RemoveFirst(xs[1..], x)
  }

  lemma {:induction false} RemoveFirstSpec(xs: seq<string>, x: string)
    requires x in xs
    ensures multiset(RemoveFirst(xs, x)) == multiset(xs) - multiset{x}
    ensures Without(RemoveFirst(xs, x), [x]) == Without(xs, [x])
  {
    if xs[0] == x {
      assert xs == [x] + xs[1..];
    } else {
      RemoveFirstSpec(xs[1..], x);
      assert xs == [xs[0]] + xs[1..];
      WithoutAppend([xs[0]], RemoveFirst(xs[1..], x), [x]);
      WithoutAppend([xs[0]], xs[1..], [x]);
    }
  }

  /** The class list after `on_visibility_change(visible)`: becoming visible
      removes `'hidden'` if present, becoming invisible appends it if absent. */
  function Visibility(cs: seq<string>, visible: bool): (r: seq<string>)
  {
    if visible && Hidden in cs then RemoveFirst(cs, Hidden)
    else if !visible && Hidden !in cs then cs + [Hidden]
    else cs
  }

  /** Whether `on_visibility_change(visible)` calls `update`. */
  predicate VisibilityUpdates(cs: seq<string>, visible: bool)
  {
    (visible && Hidden in cs) || (!visible && Hidden !in cs)
  }

  /** On a duplicate-free list: becoming invisible leaves exactly one
      `'hidden'`, becoming visible leaves none, the other classes keep their
      order, the list stays duplicate-free, and `update` is called exactly
      when the list changed. */
  lemma VisibilitySpec(cs: seq<string>, visible: bool)
    requires NoDup(cs)
    ensures var r := Visibility(cs, visible);
            && NoDup(r)
            && (visible ==> Hidden !in r)
            && (!visible ==> multiset(r)[Hidden] == 1)
            && Without(r, [Hidden]) == Without(cs, [Hidden])
            && (VisibilityUpdates(cs, visible) <==> r != cs)
  {
    var r := Visibility(cs, visible);
    if visible && Hidden in cs {
      RemoveFirstSpec(cs, Hidden);
      assert |r| == |cs| - 1 by {
        assert |multiset(r)| == |multiset(cs)| - 1;
      }
      assert multiset(cs)[Hidden] == 1 by {
        DedupeOfDistinct(cs);
        OccursOnce(cs, Hidden);
      }
      assert Hidden !in multiset(r);
      assert NoDup(r) by { SubmultisetNoDup(r, cs); }
    } else if !visible && Hidden !in cs {
      assert Hidden !in multiset(cs);
      assert multiset(r) == multiset(cs) + multiset{Hidden};
      WithoutAppend(cs, [Hidden], [Hidden]);
      assert |r| != |cs|;
    } else if !visible {
      OccursOnce(cs, Hidden);
    }
  }

  lemma {:induction false} OccursOnce(xs: seq<string>, x: string)
    requires NoDup(xs) && x in xs
    ensures multiset(xs)[x] == 1
  {
    if xs[0] == x {
      assert xs == [x] + xs[1..];
      assert x !in xs[1..] by {
        forall j | 0 <= j < |xs| - 1 ensures xs[1..][j] != x { assert xs[1..][j] == xs[j + 1]; }
      }
    } else {
      assert xs == [xs[0]] + xs[1..];
      OccursOnce(xs[1..], x);
    }
  }

  lemma {:induction false} SubmultisetNoDup(r: seq<string>, xs: seq<string>)
    requires NoDup(xs)
    requires multiset(r) <= multiset(xs)
    ensures NoDup(r)
  {
    forall i, j | 0 <= i < j < |r| ensures r[i] != r[j] {
      if r[i] == r[j] {
        var x := r[i];
        assert r == r[..i] + [x] + r[i + 1..];
        assert r[i + 1..] == r[i + 1..j] + [x] + r[j + 1..];
        assert multiset(r)[x] >= 2;
        OccursOnce(xs, x);
        assert false;
      }
    }
  }

  /** Repeating the same visibility change changes nothing, so the second
      call sends no update. */
  lemma VisibilityIdempotent(cs: seq<string>, visible: bool)
    requires NoDup(cs)
    ensures Visibility(Visibility(cs, visible), visible) == Visibility(cs, visible)
    ensures !VisibilityUpdates(Visibility(cs, visible), visible)
  {
    VisibilitySpec(cs, visible);
    if !visible {
      assert Hidden in multiset(Visibility(cs, visible));
    }
  }
}
