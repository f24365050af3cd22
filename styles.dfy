/** Inline styles: the `parse_style` mini-parser and the merge done by
    `Element.style` (element.py:88-97), as functions. The method that stores
    the result is `ElementTree.Element.Style`. */
module Styles {
  import opened Wrappers
  import opened PyStr
  import opened Containers

  datatype StyleError =
      /** `dict(...)` got a declaration that did not split on `:` into exactly
          two pieces (Python's `ValueError`). */
    | BadDeclaration(part: string, pieces: nat)
      /** Deleting a key the working map lacks (`KeyError`). */
    | MissingKey(key: string)

  /** One declaration, `(key, value)`. */
  type Decl = (string, string)

  /** One `key: value` part: it must split on `:` into exactly two pieces,
      each then stripped of whitespace. */
  function ParseDecl(part: string): (r: Result<Decl, StyleError>)
  {
    var words := SplitOn(part, ':');
    if IsDecl(part) then Success((Trim(words[0]), Trim(words[1])))
    else Failure(BadDeclaration(part, |words|))
  }

  predicate IsDecl(part: string)
  {
    |SplitOn(part, ':')| == 2
  }

  /** The parts in order; the first bad part stops the parse. */
  function ParseDecls(parts: seq<string>): (r: Result<seq<Decl>, StyleError>)
  {
    if parts == [] then Success([])
    else match ParseDecl(parts[0])
      case Failure(e) => Failure(e)
      case Success(d) =>
        match ParseDecls(parts[1..])
        case Failure(e) => Failure(e)
        case Success(ds) => Success([d] + ds)
  }

  predicate IsStyleEdge(c: char)
  {
    c == ';' || c == ' '
  }

  /** `parse_style(text)`: `None` and `''` give no declarations; otherwise
      `;` and spaces are stripped from both ends, the rest is split on `;` and
      every part must be a declaration. The result lists the declarations in
      textual order; `dict(...)` of it is `ToMap`, its key order `KeyOrder`. */
  function ParseStyle(text: Option<string>): (r: Result<seq<Decl>, StyleError>)
  {
    if text.None? || text.value == "" then Success([])
    else ParseDecls(SplitOn(Strip(text.value, IsStyleEdge), ';'))
  }

  /** Index of the first part that is not a declaration, `|parts|` if none. */
  function FirstBad(parts: seq<string>): (i: nat)
    ensures i <= |parts|
    ensures forall j | 0 <= j < i :: IsDecl(parts[j])
    ensures i < |parts| ==> !IsDecl(parts[i])
  {
    if parts == [] || !IsDecl(parts[0]) then 0 else 1 + FirstBad(parts[1..])
  }

  /** The parts parse exactly when each is a declaration, giving their
      declarations in order; otherwise the error is that of the first part
      that is not one. */
  lemma {:induction false} ParseDeclsFirstBad(parts: seq<string>)
    ensures var r, i := ParseDecls(parts), FirstBad(parts);
            && (r.Success? <==> i == |parts|)
            && (r.Success? ==> |r.value| == |parts| && forall k | 0 <= k < |parts| :: r.value[k] == ParseDecl(parts[k]).value)
            && (r.Failure? ==> r.error == ParseDecl(parts[i]).error)
  {
    if parts != [] && ParseDecl(parts[0]).Success? {
      var tail := parts[1..];
      ParseDeclsFirstBad(tail);
      var r := ParseDecls(parts);
      if r.Success? {
        forall k | 0 <= k < |parts| ensures r.value[k] == ParseDecl(parts[k]).value {
          if k > 0 { assert parts[k] == tail[k - 1]; }
        }
      }
    }
  }

  /** The parts parse exactly when every one of them splits on `:` into
      exactly two pieces; the declarations are then those pieces stripped,
      in order. Otherwise the `ValueError` names the first part that does not
      split so, and how many pieces it gave. */
  lemma ParseDeclsSpec(parts: seq<string>)
    ensures var r := ParseDecls(parts);
            && (r.Success? <==> forall k | 0 <= k < |parts| :: |SplitOn(parts[k], ':')| == 2)
            && (r.Success? ==>
                  && |r.value| == |parts|
                  && forall k | 0 <= k < |parts| ::
                       r.value[k] == (Trim(SplitOn(parts[k], ':')[0]), Trim(SplitOn(parts[k], ':')[1])))
            && (r.Failure? ==>
                  var i := FirstBad(parts);
                  && i < |parts|
                  && (forall k | 0 <= k < i :: |SplitOn(parts[k], ':')| == 2)
                  && |SplitOn(parts[i], ':')| != 2
                  && r.error == BadDeclaration(parts[i], |SplitOn(parts[i], ':')|))
  {
    ParseDeclsFirstBad(parts);
    var i := FirstBad(parts);
    if i < |parts| {
      assert !IsDecl(parts[i]);
    }
  }

  // ------------------------------------------------------------ round trip

  /** A declaration that a style string can carry unchanged. */
  predicate Printable(d: Decl)
  {
    && ';' !in d.0 && ':' !in d.0 && Trimmed(d.0)
    && ';' !in d.1 && ':' !in d.1 && Trimmed(d.1)
  }

  function RenderDecl(d: Decl): (r: string)
  {
    d.0 + ":" + d.1
  }

  function RenderDecls(ds: seq<Decl>): (parts: seq<string>)
    ensures |parts| == |ds|
    ensures forall k | 0 <= k < |ds| :: parts[k] == RenderDecl(ds[k])
  {
    if ds == [] then [] else [RenderDecl(ds[0])] + RenderDecls(ds[1..])
  }

  /** The style string `k1:v1;k2:v2;...`. */
  function RenderStyle(ds: seq<Decl>): (r: string)
  {
    Join(RenderDecls(ds), ";")
  }

  lemma ParseRenderDecl(d: Decl)
    requires Printable(d)
    ensures ParseDecl(RenderDecl(d)) == Success(d)
  {
    assert Join([d.0, d.1], [':']) == RenderDecl(d);
    SplitOnJoin([d.0, d.1], ':');
    TrimTrimmed(d.0);
    TrimTrimmed(d.1);
  }

  lemma {:induction false} ParseRenderDecls(ds: seq<Decl>)
    requires forall k | 0 <= k < |ds| :: Printable(ds[k])
    ensures ParseDecls(RenderDecls(ds)) == Success(ds)
  {
    if ds != [] {
      var parts := RenderDecls(ds);
      ParseRenderDecl(ds[0]);
      ParseRenderDecls(ds[1..]);
      assert parts[0] == RenderDecl(ds[0]);
      assert parts[1..] == RenderDecls(ds[1..]);
      assert ParseDecls(parts) == Success([ds[0]] + ds[1..]);
      assert [ds[0]] + ds[1..] == ds;
    }
  }

  lemma RenderStyleEdges(ds: seq<Decl>)
    requires ds != []
    requires forall k | 0 <= k < |ds| :: Printable(ds[k])
    ensures var s := RenderStyle(ds); s != [] && !IsStyleEdge(s[0]) && !IsStyleEdge(s[|s| - 1])
  {
    var parts := RenderDecls(ds);
    var s := RenderStyle(ds);
    var first, last := ds[0], ds[|ds| - 1];
    var p, q := parts[0], parts[|parts| - 1];
    assert p == first.0 + ":" + first.1;
    assert q == last.0 + ":" + last.1;
    JoinFirst(parts, ";");
    JoinLast(parts, ";");
    assert s[0] == p[0];
    assert s[|s| - 1] == q[|q| - 1];
    if first.0 != [] { assert p[0] == first.0[0]; } else { assert p[0] == ':'; }
    if last.1 != [] { assert q[|q| - 1] == last.1[|last.1| - 1]; } else { assert q[|q| - 1] == ':'; }
  }

  /** `parse_style` reads back every list of printable declarations written
      as `k1:v1;k2:v2;...`, the empty list included. */
  lemma ParseRenderStyle(ds: seq<Decl>)
    requires forall k | 0 <= k < |ds| :: Printable(ds[k])
    ensures ParseStyle(Some(RenderStyle(ds))) == Success(ds)
  {
    if ds != [] {
      var parts := RenderDecls(ds);
      var s := RenderStyle(ds);
      RenderStyleEdges(ds);
      StripNoop(s, IsStyleEdge);
      assert Strip(s, IsStyleEdge) == s;
      forall k | 0 <= k < |parts| ensures ';' !in parts[k] {
        assert parts[k] == ds[k].0 + ":" + ds[k].1;
      }
      SplitOnJoin(parts, ';');
      assert SplitOn(s, ';') == parts;
      ParseRenderDecls(ds);
    }
  }

  // ------------------------------------------------------------ the merge

  /** Index of the first key the map lacks, `|keys|` when it has them all. */
  function FirstMissing(d: map<string, string>, keys: seq<string>): (i: nat)
    ensures i <= |keys|
    ensures forall j | 0 <= j < i :: keys[j] in d
    ensures i < |keys| ==> keys[i] !in d
  {
    if keys == [] || keys[0] !in d then 0 else 1 + FirstMissing(d, keys[1..])
  }

  /** Deleting the keys one by one, in order: the map when the loop ends or
      raises, and the key it raised `KeyError` on. */
  function DeleteKeys(d: map<string, string>, keys: seq<string>): (r: (map<string, string>, Option<string>))
  {
    if keys == [] then (d, None)
    else if keys[0] !in d then (d, Some(keys[0]))
    else DeleteKeys(d - {keys[0]}, keys[1..])
  }

  /** With distinct keys, the loop deletes every key before the first one the
      map lacks, and raises on that one. */
  lemma {:induction false} DeleteKeysSpec(d: map<string, string>, keys: seq<string>)
    requires NoDup(keys)
    ensures var i := FirstMissing(d, keys);
            DeleteKeys(d, keys) == (d - Elems(keys[..i]), if i < |keys| then Some(keys[i]) else None)
  {
    if keys != [] && keys[0] in d {
      var k := keys[0];
      var rest := keys[1..];
      assert NoDup(rest) by {
        forall i, j | 0 <= i < j < |rest| ensures rest[i] != rest[j] { assert rest[i] == keys[i + 1] && rest[j] == keys[j + 1]; }
      }
      assert k !in rest by {
        forall j | 0 <= j < |rest| ensures rest[j] != k { assert rest[j] == keys[j + 1]; }
      }
      DeleteKeysSpec(d - {k}, rest);
      var i := FirstMissing(d - {k}, rest);
      assert FirstMissing(d, keys) == i + 1 by {
        assert forall j | 0 <= j < i :: rest[j] in d;
        assert i < |rest| ==> rest[i] !in d;
      }
      assert keys[..i + 1] == [k] + rest[..i];
      assert Elems(keys[..i + 1]) == {k} + Elems(rest[..i]);
      assert d - {k} - Elems(rest[..i]) == d - Elems(keys[..i + 1]);
      if i < |rest| { assert keys[i + 1] == rest[i]; }
    } else {
      assert keys[..0] == [];
      assert d - Elems([]) == d;
    }
  }

  /** The deletion loop of `style`, run on a copy: the map when
      the loop ends or raises, and the key it raised on. */
  method DeleteEach(d0: map<string, string>, keys: seq<string>) returns (d: map<string, string>, missing: Option<string>)
    ensures (d, missing) == DeleteKeys(d0, keys)
  {
    d := d0;
    for k := 0 to |keys|
      invariant DeleteKeys(d0, keys) == DeleteKeys(d, keys[k..])
    {
      assert keys[k..][0] == keys[k] && keys[k..][1..] == keys[k + 1..];
      if keys[k] !in d {
        return d, Some(keys[k]);
      }
      d := d - {keys[k]};
    }
    assert keys[|keys|..] == [];
    missing := None;
  }

  /** What a `style(...)` call leaves: the new `_style`, whether it called
      `update`, and the exception it raised, if any. */
  datatype Outcome = Outcome(style: map<string, string>, updated: bool, error: Option<StyleError>)

  /** `style(add, remove=remove, replace=replace)` on `current`. Without
      `replace` the working map IS `self._style`, so every edit made before an
      exception stays, and the final `!=` compares the map with itself and
      never calls `update`; with `replace` the working map is a new one,
      stored (and `update` called) only if the call finishes and it differs. */
  function ApplyStyle(current: map<string, string>, add: Option<string>, remove: Option<string>,
                      replace: Option<string>): (r: Outcome)
  {
    var aliased := replace.None?;
    var base := if aliased then current else map[];
    match ParseStyle(remove)
    case Failure(e) => Outcome(current, false, Some(e))
    case Success(rem) =>
      var (d, missing) := DeleteKeys(base, KeyOrder(rem));
      if missing.Some? then Outcome(if aliased then d else current, false, Some(MissingKey(missing.value)))
      else match ParseStyle(add)
        case Failure(e) => Outcome(if aliased then d else current, false, Some(e))
        case Success(a) =>
          var d2 := d + ToMap(a);
          match ParseStyle(replace)
          case Failure(e) => Outcome(if aliased then d2 else current, false, Some(e))
          case Success(p) =>
            var d3 := d2 + ToMap(p);
            Outcome(d3, !aliased && current != d3, None)
  }

  /** The body of `style(add, remove=remove, replace=replace)` on a copy of
      `current`. Without `replace` the working map stands for `self._style`
      itself, so the map it holds when the body ends or raises is the
      element's new map; with `replace` the new map is stored only at the
      end, and only when it differs. */
  method RunStyle(current: map<string, string>, add: Option<string>, remove: Option<string>,
                  replace: Option<string>) returns (o: Outcome)
    ensures o == ApplyStyle(current, add, remove, replace)
  {
    var aliased := replace.None?;
    var d := if aliased then current else map[];
    var rem := ParseStyle(remove);
    if rem.Failure? {
      return Outcome(current, false, Some(rem.error));
    }
    var missing;
    d, missing := DeleteEach(d, KeyOrder(rem.value));
    if missing.Some? {
      return Outcome(if aliased then d else current, false, Some(MissingKey(missing.value)));
    }
    var a := ParseStyle(add);
    if a.Failure? {
      return Outcome(if aliased then d else current, false, Some(a.error));
    }
    d := d + ToMap(a.value);
    var p := ParseStyle(replace);
    if p.Failure? {
      return Outcome(if aliased then d else current, false, Some(p.error));
    }
    d := d + ToMap(p.value);
    // the final comparison: with the alias both sides are one map
    var stored := if aliased then d else current;
    o := Outcome(d, stored != d, None);
  }

  /** A `style` call succeeds exactly when the three strings parse and every
      key named in `remove` is in the working map; the new map is then the
      working map minus the removed keys, overlaid with `add`, then with
      `replace`. */
  lemma ApplyStyleSuccess(current: map<string, string>, add: Option<string>, remove: Option<string>,
                          replace: Option<string>)
    ensures var o := ApplyStyle(current, add, remove, replace);
            var base := if replace.None? then current else map[];
            && (o.error.None? <==>
                  && ParseStyle(remove).Success?
                  && (forall k | k in ToMap(ParseStyle(remove).value) :: k in base)
                  && ParseStyle(add).Success?
                  && ParseStyle(replace).Success?)
            && (o.error.None? ==>
                  o.style == (base - ToMap(ParseStyle(remove).value).Keys)
                             + ToMap(ParseStyle(add).value) + ToMap(ParseStyle(replace).value))
  {
    var base := if replace.None? then current else map[];
    if ParseStyle(remove).Success? {
      DeleteAll(base, ParseStyle(remove).value);
    }
  }

  /** Deleting the keys of `rem` from `d` raises nothing exactly when `d`
      holds all of them, and then removes exactly those keys. */
  lemma DeleteAll(d: map<string, string>, rem: seq<Decl>)
    ensures var r := DeleteKeys(d, KeyOrder(rem));
            && (r.1.None? <==> forall k | k in ToMap(rem) :: k in d)
            && (r.1.None? ==> r.0 == d - ToMap(rem).Keys)
  {
    var keys := KeyOrder(rem);
    KeyOrderSpec(rem);
    DeleteKeysSpec(d, keys);
    var i := FirstMissing(d, keys);
    if i == |keys| {
      assert keys[..i] == keys;
      assert Elems(keys) == ToMap(rem).Keys;
    } else {
      assert keys[i] in ToMap(rem) && keys[i] !in d;
    }
  }

  /** Removing a key the working map lacks raises `KeyError` on the first such
      key in `remove`; without `replace` the keys deleted before it stay
      deleted, with `replace` the element keeps its old map. */
  lemma ApplyStyleMissingKey(current: map<string, string>, add: Option<string>, remove: Option<string>,
                             replace: Option<string>)
    requires ParseStyle(remove).Success?
    requires var base := if replace.None? then current else map[];
             exists k | k in ToMap(ParseStyle(remove).value) :: k !in base
    ensures var o := ApplyStyle(current, add, remove, replace);
            var base := if replace.None? then current else map[];
            var keys := KeyOrder(ParseStyle(remove).value);
            var i := FirstMissing(base, keys);
            && i < |keys|
            && o.error == Some(MissingKey(keys[i]))
            && !o.updated
            && o.style == (if replace.None? then current - Elems(keys[..i]) else current)
  {
    var base := if replace.None? then current else map[];
    var rem := ParseStyle(remove).value;
    var keys := KeyOrder(rem);
    KeyOrderSpec(rem);
    DeleteKeysSpec(base, keys);
    var i := FirstMissing(base, keys);
    var k :| k in ToMap(rem) && k !in base;
    assert k in keys;
  }

  /** `update` is called exactly when `replace` is given, the call succeeds
      and the map differs; without `replace` a change is stored but never
      sent. */
  lemma ApplyStyleUpdates(current: map<string, string>, add: Option<string>, remove: Option<string>,
                          replace: Option<string>)
    ensures var o := ApplyStyle(current, add, remove, replace);
            o.updated <==> replace.Some? && o.error.None? && o.style != current
  {
  }
}
