/** List and dict idioms of the element code: the comprehension filter
    `[c for c in xs if c not in bad]`, `list(dict.fromkeys(xs))` (remove
    duplicates keeping first occurrences) and `dict(pairs)`. */
module Containers {

  predicate NoDup<T(==)>(xs: seq<T>)
  {
    forall i, j | 0 <= i < j < |xs| :: xs[i] != xs[j]
  }

  /** Two duplicate-free lists with no element in common concatenate to a
      duplicate-free list. */
  lemma NoDupAppend<T>(a: seq<T>, b: seq<T>)
    requires NoDup(a) && NoDup(b)
    requires forall x | x in a :: x !in b
    ensures NoDup(a + b)
  {
    forall i, j | 0 <= i < j < |a + b| ensures (a + b)[i] != (a + b)[j] {
      if i < |a| <= j {
        assert (a + b)[i] in a && (a + b)[j] == b[j - |a|];
      } else if |a| <= i {
        assert (a + b)[i] == b[i - |a|] && (a + b)[j] == b[j - |a|];
      }
    }
  }

  /** The elements of `xs` that are not in `bad`, in order (a filtering list
      comprehension). */
  function Without<T(==)>(xs: seq<T>, bad: seq<T>): (r: seq<T>)
    ensures |r| <= |xs|
    ensures forall x | x in r :: x in xs && x !in bad
    ensures forall x | x in xs && x !in bad :: x in r
  {
    if xs == [] then []
    else (if xs[0] in bad then [] else [xs[0]]) + Without(xs[1..], bad)
  }

  lemma {:induction false} WithoutNoDup<T>(xs: seq<T>, bad: seq<T>)
    requires NoDup(xs)
    ensures NoDup(Without(xs, bad))
  {
    if xs != [] {
      WithoutNoDup(xs[1..], bad);
      assert xs[0] !in xs[1..] by {
        forall j | 0 <= j < |xs[1..]| ensures xs[1..][j] != xs[0] {
          assert xs[1..][j] == xs[j + 1];
        }
      }
    }
  }

  lemma {:induction false} WithoutNothing<T>(xs: seq<T>)
    ensures Without(xs, []) == xs
  {
    if xs != [] {
      WithoutNothing(xs[1..]);
    }
  }

  lemma {:induction false} WithoutAppend<T>(a: seq<T>, b: seq<T>, bad: seq<T>)
    ensures Without(a + b, bad) == Without(a, bad) + Without(b, bad)
  {
    if a != [] {
      assert (a + b)[1..] == a[1..] + b;
      WithoutAppend(a[1..], b, bad);
    } else {
      assert a + b == b;
    }
  }

  // ------------------------------------------------------ dict.fromkeys

  /** The insertion loop of `dict.fromkeys`: `acc` holds the keys so far. */
  function DedupeInto<T(==)>(acc: seq<T>, rest: seq<T>): (r: seq<T>)
    decreases |rest|
  {
    if rest == [] then acc
    else if rest[0] in acc then DedupeInto(acc, rest[1..])
    else DedupeInto(acc + [rest[0]], rest[1..])
  }

  /** `list(dict.fromkeys(xs))`. */
  function Dedupe<T(==)>(xs: seq<T>): (r: seq<T>)
  {
    DedupeInto([], xs)
  }

  /** Reference definition: the elements of `xs` taken at the positions where
      they occur for the first time, in order. */
  function FirstOccurrences<T(==)>(xs: seq<T>): (r: seq<T>)
  {
    if xs == [] then []
    else
      var init := xs[..|xs| - 1];
      FirstOccurrences(init) + (if xs[|xs| - 1] in init then [] else [xs[|xs| - 1]])
  }

  lemma {:induction false} FirstOccurrencesMembers<T>(xs: seq<T>)
    ensures forall x :: x in FirstOccurrences(xs) <==> x in xs
    ensures NoDup(FirstOccurrences(xs))
  {
    if xs != [] {
      var init := xs[..|xs| - 1];
      FirstOccurrencesMembers(init);
      assert xs == init + [xs[|xs| - 1]];
    }
  }

  lemma {:induction false} DedupeIntoFirstOccurrences<T>(xs: seq<T>, i: nat)
    requires i <= |xs|
    ensures DedupeInto(FirstOccurrences(xs[..i]), xs[i..]) == FirstOccurrences(xs)
    decreases |xs| - i
  {
    if i == |xs| {
      assert xs[..i] == xs;
    } else {
      var p := xs[..i];
      FirstOccurrencesMembers(p);
      assert xs[..i + 1][..i] == p;
      assert FirstOccurrences(xs[..i + 1])
          == FirstOccurrences(p) + (if xs[i] in p then [] else [xs[i]]);
      assert xs[i..][0] == xs[i];
      assert xs[i..][1..] == xs[i + 1..];
      if xs[i] in p {
        assert xs[i] in FirstOccurrences(p);
        assert DedupeInto(FirstOccurrences(p), xs[i..]) == DedupeInto(FirstOccurrences(p), xs[i + 1..]);
        assert FirstOccurrences(xs[..i + 1]) == FirstOccurrences(p);
      } else {
        assert xs[i] !in FirstOccurrences(p);
        assert DedupeInto(FirstOccurrences(p), xs[i..])
            == DedupeInto(FirstOccurrences(p) + [xs[i]], xs[i + 1..]);
        assert FirstOccurrences(xs[..i + 1]) == FirstOccurrences(p) + [xs[i]];
      }
      DedupeIntoFirstOccurrences(xs, i + 1);
    }
  }

  /** `list(dict.fromkeys(xs))` has no duplicates, the same elements as `xs`,
      and lists them in the order of their first occurrence. */
  lemma DedupeSpec<T>(xs: seq<T>)
    ensures Dedupe(xs) == FirstOccurrences(xs)
    ensures NoDup(Dedupe(xs))
    ensures forall x :: x in Dedupe(xs) <==> x in xs
  {
    DedupeIntoFirstOccurrences(xs, 0);
    assert xs[0..] == xs;
    FirstOccurrencesMembers(xs);
  }

  lemma {:induction false} DedupeIntoAppend<T>(acc: seq<T>, a: seq<T>, b: seq<T>)
    ensures DedupeInto(acc, a + b) == DedupeInto(DedupeInto(acc, a), b)
    decreases |a|
  {
    if a == [] {
      assert a + b == b;
    } else {
      assert (a + b)[0] == a[0];
      assert (a + b)[1..] == a[1..] + b;
      if a[0] in acc {
        DedupeIntoAppend(acc, a[1..], b);
      } else {
        DedupeIntoAppend(acc + [a[0]], a[1..], b);
      }
    }
  }

  lemma {:induction false} DedupeIntoSplit<T>(acc: seq<T>, mid: seq<T>, ys: seq<T>)
    requires forall x | x in mid :: x !in acc
    ensures DedupeInto(acc + mid, ys) == acc + DedupeInto(mid, Without(ys, acc))
    decreases |ys|
  {
    if ys != [] {
      var y := ys[0];
      if y in acc {
        assert y in acc + mid;
        assert Without(ys, acc) == Without(ys[1..], acc);
        DedupeIntoSplit(acc, mid, ys[1..]);
      } else {
        assert Without(ys, acc) == [y] + Without(ys[1..], acc);
        if y in mid {
          DedupeIntoSplit(acc, mid, ys[1..]);
        } else {
          assert acc + mid + [y] == acc + (mid + [y]);
          DedupeIntoSplit(acc, mid + [y], ys[1..]);
        }
      }
    } else {
      assert acc + mid == acc + mid;
    }
  }

  lemma {:induction false} DedupeIntoAllSeen<T>(acc: seq<T>, ys: seq<T>)
    requires forall y | y in ys :: y in acc
    ensures DedupeInto(acc, ys) == acc
    decreases |ys|
  {
    if ys != [] {
      DedupeIntoAllSeen(acc, ys[1..]);
    }
  }

  lemma {:induction false} DedupeIntoDistinct<T>(acc: seq<T>, ys: seq<T>)
    requires NoDup(acc + ys)
    ensures DedupeInto(acc, ys) == acc + ys
    decreases |ys|
  {
    if ys != [] {
      assert (acc + ys)[|acc|] == ys[0];
      assert ys[0] !in acc by {
        forall i | 0 <= i < |acc| ensures acc[i] != ys[0] {
          assert (acc + ys)[i] == acc[i];
        }
      }
      assert acc + [ys[0]] + ys[1..] == acc + ys;
      DedupeIntoDistinct(acc + [ys[0]], ys[1..]);
    }
  }

  /** A duplicate-free list is its own deduplication. */
  lemma DedupeOfDistinct<T>(xs: seq<T>)
    requires NoDup(xs)
    ensures Dedupe(xs) == xs
  {
    assert [] + xs == xs;
    DedupeIntoDistinct([], xs);
  }

  /** Deduplicating `p + q` for a duplicate-free `p` keeps `p` as it is and
      appends the first occurrences of the elements of `q` not in `p`. */
  lemma DedupePrefix<T>(p: seq<T>, q: seq<T>)
    requires NoDup(p)
    ensures Dedupe(p + q) == p + Dedupe(Without(q, p))
  {
    DedupeIntoAppend([], p, q);
    DedupeOfDistinct(p);
    assert p + [] == p;
    DedupeIntoSplit(p, [], q);
  }

  /** Appending elements already present changes nothing. */
  lemma DedupeAbsorbs<T>(p: seq<T>, q: seq<T>)
    requires NoDup(p)
    requires forall x | x in q :: x in p
    ensures Dedupe(p + q) == p
  {
    DedupeIntoAppend([], p, q);
    DedupeOfDistinct(p);
    DedupeIntoAllSeen(p, q);
  }

  // ------------------------------------------------------------ dict(pairs)

  function Elems<T>(xs: seq<T>): (r: set<T>)
  {
    set x | x in xs
  }

  /** The keys of a list of pairs, in order. */
  function Keys<K, V>(pairs: seq<(K, V)>): (ks: seq<K>)
    ensures |ks| == |pairs|
    ensures forall i | 0 <= i < |pairs| :: ks[i] == pairs[i].0
  {
    if pairs == [] then [] else Keys(pairs[..|pairs| - 1]) + [pairs[|pairs| - 1].0]
  }

  /** The key order of `dict(pairs)`: every key where it first occurs. */
  function KeyOrder<K(==), V>(pairs: seq<(K, V)>): (r: seq<K>)
  {
    Dedupe(Keys(pairs))
  }

  /** `dict(pairs)`, order forgotten: each pair in turn sets its key. */
  function ToMap<K, V>(pairs: seq<(K, V)>): (m: map<K, V>)
  {
    if pairs == [] then map[]
    else ToMap(pairs[..|pairs| - 1])[pairs[|pairs| - 1].0 := pairs[|pairs| - 1].1]
  }

  /** `dict(pairs)` holds exactly the keys of the pairs, and each key holds the
      value of the LAST pair with that key. */
  lemma {:induction false} ToMapLastWins<K, V>(pairs: seq<(K, V)>)
    ensures forall k :: k in ToMap(pairs) <==> k in Keys(pairs)
    ensures forall k | k in ToMap(pairs) ::
              exists i | 0 <= i < |pairs| ::
                && pairs[i].0 == k && ToMap(pairs)[k] == pairs[i].1
                && forall j | i < j < |pairs| :: pairs[j].0 != k
  {
    if pairs != [] {
      var n := |pairs| - 1;
      var init := pairs[..n];
      ToMapLastWins(init);
      assert Keys(pairs) == Keys(init) + [pairs[n].0];
      forall k | k in ToMap(pairs)
        ensures exists i | 0 <= i < |pairs| ::
                  && pairs[i].0 == k && ToMap(pairs)[k] == pairs[i].1
                  && forall j | i < j < |pairs| :: pairs[j].0 != k
      {
        if k == pairs[n].0 {
          assert pairs[n].0 == k && ToMap(pairs)[k] == pairs[n].1;
        } else {
          assert k in ToMap(init);
          var i :| 0 <= i < |init| && init[i].0 == k && ToMap(init)[k] == init[i].1
                   && forall j | i < j < |init| :: init[j].0 != k;
          assert pairs[i] == init[i];
          assert forall j | i < j < |pairs| :: pairs[j].0 != k by {
            forall j | i < j < |pairs| ensures pairs[j].0 != k {
              if j < n { assert pairs[j] == init[j]; }
            }
          }
        }
      }
    }
  }

  /** The key order of `dict(pairs)` lists each key of the result once. */
  lemma KeyOrderSpec<K, V>(pairs: seq<(K, V)>)
    ensures NoDup(KeyOrder(pairs))
    ensures forall k :: k in KeyOrder(pairs) <==> k in ToMap(pairs)
  {
    DedupeSpec(Keys(pairs));
    ToMapLastWins(pairs);
  }

  /** Appending `b` after `ids + a` is appending `a + b` after `ids`. A
      solver hint only: calling it keeps the proof of `CollectSlots` cheap. */
  lemma AppendAssoc<T>(ids: seq<T>, a: seq<T>, b: seq<T>)
    ensures (ids + a) + b == ids + (a + b)
  {
  }

  /** `p` after `p[k] = m[k]` for each key `k` of `ks` in turn. */
  function Overlay<K, V>(p: map<K, V>, m: map<K, V>, ks: seq<K>): (r: map<K, V>)
    requires forall k | k in ks :: k in m
    ensures r.Keys == p.Keys + Elems(ks)
    ensures forall k | k in r :: r[k] == if k in ks then m[k] else p[k]
  {
    if ks == [] then p
    else Overlay(p, m, ks[..|ks| - 1])[ks[|ks| - 1] := m[ks[|ks| - 1]]]
  }

  /** Setting every key of `m` gives `p + m`. */
  lemma OverlayAll<K, V>(p: map<K, V>, m: map<K, V>, ks: seq<K>)
    requires Elems(ks) == m.Keys
    ensures Overlay(p, m, ks) == p + m
  {
  }

  /** Setting a key to the value it already holds changes nothing. A solver
      hint only: calling it keeps the proof of `SetEachStep` cheap. */
  lemma SetSame<K, V>(m: map<K, V>, k: K, v: V)
    requires k in m && m[k] == v
    ensures m[k := v] == m
  {
  }
}
