/** Component props: the `parse_props` mini-language and the merge done by
    `Element.props` (element.py:107-124), as functions. The method that
    stores the result is `ElementTree.Element.Props`. The tokenizer is a
    simplified `shlex`: see `Lex`. */
module Props {
  import opened Wrappers
  import opened PyStr
  import opened Containers

  /** A prop value: a string, or Python's `True` for a bare flag. */
  datatype PropValue = Str(s: string) | Flag

  datatype PropsError = NoClosingQuotation

  predicate IsQuote(c: char)
  {
    c == '"' || c == '\''
  }

  function Prepend(t: string, r: Result<seq<string>, PropsError>): (res: Result<seq<string>, PropsError>)
  {
    match r
    case Success(ts) => Success([t] + ts)
    case Failure(e) => Failure(e)
  }

  /** The lexer `shlex.shlex(text, posix=True)` with `whitespace = ' '`, for
      text whose other characters are all word characters: tokens are
      separated by spaces; a quote (`"` or `'`) opens a quoted run up to the
      next matching quote, whose characters join the current token and whose
      quotes are dropped; a quote left open is an error. `cur` is the token
      read so far and `inToken` says whether a token has begun (a quoted empty
      run begins one, so `''` is an empty token). */
  function Lex(s: string, cur: string, inToken: bool): (r: Result<seq<string>, PropsError>)
    decreases |s|
  {
    if s == [] then Success(if inToken then [cur] else [])
    else if s[0] == ' ' then
      if inToken then Prepend(cur, Lex(s[1..], "", false)) else Lex(s[1..], "", false)
    else if IsQuote(s[0]) then
      var rest := s[1..];
      if s[0] !in rest then Failure(NoClosingQuotation)
      else
        var j := IndexOf(rest, s[0]);
        Lex(rest[j + 1..], cur + rest[..j], true)
    else Lex(s[1..], cur + [s[0]], true)
  }

  function Tokens(text: string): (r: Result<seq<string>, PropsError>)
  {
    Lex(text, "", false)
  }

  /** One token as a prop: split at its first `=` into key and string value,
      or, without any `=`, the token as a key set to `True`. */
  function ParseWord(w: string): (r: (string, PropValue))
  {
    if '=' in w then
      var i := IndexOf(w, '=');
      (w[..i], Str(w[i + 1..]))
    else (w, Flag)
  }

  /** `parse_props(text)`: `None` and `''` give nothing; otherwise every token
      is a `key=value` or a bare flag `key`, in textual order (`dict(...)` of
      the result is `ToMap`). */
  function ParseProps(text: Option<string>): (r: Result<seq<(string, PropValue)>, PropsError>)
  {
    if text.None? || text.value == "" then Success([])
    else match Tokens(text.value)
      case Failure(e) => Failure(e)
      case Success(ws) => Success(seq(|ws|, i requires 0 <= i < |ws| => ParseWord(ws[i])))
  }

  /** A token splits at its FIRST `=`: the value may hold more of them. */
  lemma ParseWordSpec(key: string, value: string)
    requires '=' !in key
    ensures ParseWord(key + "=" + value) == (key, Str(value))
    ensures ParseWord(key) == (key, Flag)
  {
    var w := key + "=" + value;
    assert w[|key|] == '=';
    assert IndexOf(w, '=') == |key|;
    assert w[..|key|] == key && w[|key| + 1..] == value;
  }

  // ------------------------------------------------------------ round trip

  predicate PlainWord(w: string)
  {
    forall i | 0 <= i < |w| :: w[i] != ' ' && !IsQuote(w[i])
  }

  /** The ASCII word characters of the lexer: letters, digits and `_`, plus
      the `-.%` that `parse_props` adds (`=` is one too, but keys never hold
      it). */
  predicate IsKeyChar(c: char)
  {
    ('a' <= c <= 'z') || ('A' <= c <= 'Z') || ('0' <= c <= '9') || c in "_-.%"
  }

  /** A prop that a props string can carry unchanged, for this lexer and for
      Python's `shlex` alike: a non-empty key of word characters, and a
      string value without `"` or `\`, which is written double-quoted so that
      it may contain spaces and any other character. */
  predicate Printable(p: (string, PropValue))
  {
    && p.0 != [] && (forall i | 0 <= i < |p.0| :: IsKeyChar(p.0[i]))
    && (p.1.Str? ==> '"' !in p.1.s && '\\' !in p.1.s)
  }

  lemma PrintableKey(p: (string, PropValue))
    requires Printable(p)
    ensures PlainWord(p.0) && '=' !in p.0
  {
    assert forall i | 0 <= i < |p.0| :: IsKeyChar(p.0[i]);
  }

  function RenderProp(p: (string, PropValue)): (r: string)
  {
    match p.1
    case Flag => p.0
    case Str(v) => p.0 + "=\"" + v + "\""
  }

  /** The token the lexer reads from `RenderProp(p)`. */
  function Word(p: (string, PropValue)): (r: string)
  {
    match p.1
    case Flag => p.0
    case Str(v) => p.0 + "=" + v
  }

  function RenderAll(ps: seq<(string, PropValue)>): (parts: seq<string>)
    ensures |parts| == |ps|
    ensures forall k | 0 <= k < |ps| :: parts[k] == RenderProp(ps[k])
  {
    if ps == [] then [] else [RenderProp(ps[0])] + RenderAll(ps[1..])
  }

  /** The props string `k1 k2="v2" ...`. */
  function RenderProps(ps: seq<(string, PropValue)>): (r: string)
  {
    Join(RenderAll(ps), " ")
  }

  lemma {:induction false} LexPlain(w: string, s: string, cur: string, inToken: bool)
    requires PlainWord(w)
    ensures Lex(w + s, cur, inToken) == Lex(s, cur + w, inToken || w != [])
  {
    if w == [] {
      assert w + s == s;
      assert cur + w == cur;
    } else {
      assert (w + s)[0] == w[0];
      assert (w + s)[1..] == w[1..] + s;
      assert cur + [w[0]] + w[1..] == cur + w;
      LexPlain(w[1..], s, cur + [w[0]], true);
    }
  }

  lemma LexQuoted(v: string, s: string, cur: string, inToken: bool)
    requires '"' !in v
    ensures Lex("\"" + v + "\"" + s, cur, inToken) == Lex(s, cur + v, true)
  {
    var t := "\"" + v + "\"" + s;
    var rest := t[1..];
    assert rest == v + "\"" + s;
    assert rest[|v|] == '"';
    assert IndexOf(rest, '"') == |v| by {
      assert forall i | 0 <= i < |v| :: rest[i] == v[i];
    }
    assert rest[..|v|] == v;
    assert rest[|v| + 1..] == s;
  }

  /** Lexing a rendered prop reads exactly its token and leaves it open. */
  lemma LexRendered(p: (string, PropValue), s: string)
    requires Printable(p)
    ensures Lex(RenderProp(p) + s, "", false) == Lex(s, Word(p), true)
  {
    PrintableKey(p);
    match p.1
    case Flag =>
      LexPlain(p.0, s, "", false);
      assert "" + p.0 == p.0;
    case Str(v) =>
      var k := p.0 + "=";
      assert PlainWord(k) by {
        forall i | 0 <= i < |k| ensures k[i] != ' ' && !IsQuote(k[i]) {
          if i < |p.0| { assert k[i] == p.0[i]; }
        }
      }
      assert RenderProp(p) + s == k + ("\"" + v + "\"" + s);
      LexPlain(k, "\"" + v + "\"" + s, "", false);
      assert "" + k == k;
      LexQuoted(v, s, k, true);
  }

  lemma {:induction false} TokensRendered(ps: seq<(string, PropValue)>)
    requires |ps| >= 1
    requires forall k | 0 <= k < |ps| :: Printable(ps[k])
    ensures Tokens(RenderProps(ps)) == Success(seq(|ps|, i requires 0 <= i < |ps| => Word(ps[i])))
  {
    var words := seq(|ps|, i requires 0 <= i < |ps| => Word(ps[i]));
    var parts := RenderAll(ps);
    if |ps| == 1 {
      LexRendered(ps[0], "");
      assert RenderProp(ps[0]) + "" == RenderProp(ps[0]);
      assert RenderProps(ps) == parts[0];
      assert Lex("", Word(ps[0]), true) == Success([Word(ps[0])]);
      assert words == [Word(ps[0])];
    } else {
      var tail := Join(parts[1..], " ");
      assert parts[1..] == RenderAll(ps[1..]);
      assert RenderProps(ps) == RenderProp(ps[0]) + (" " + tail);
      LexRendered(ps[0], " " + tail);
      assert (" " + tail)[1..] == tail;
      TokensRendered(ps[1..]);
      assert words == [Word(ps[0])] + seq(|ps| - 1, i requires 0 <= i < |ps| - 1 => Word(ps[1..][i]));
    }
  }

  /** `parse_props` reads back every list of printable props written as
      `k1 k2="v2" ...`, the empty list included. */
  lemma ParseRenderProps(ps: seq<(string, PropValue)>)
    requires forall k | 0 <= k < |ps| :: Printable(ps[k])
    ensures ParseProps(Some(RenderProps(ps))) == Success(ps)
  {
    if ps != [] {
      var parts := RenderAll(ps);
      assert parts[0] != [] by {
        assert |parts[0]| >= |ps[0].0|;
      }
      JoinFirst(parts, " ");
      assert RenderProps(ps) != "";
      TokensRendered(ps);
      ParseWords(ps);
    }
  }

  /** Each rendered token of a printable prop parses back to that prop. */
  lemma ParseWords(ps: seq<(string, PropValue)>)
    requires forall k | 0 <= k < |ps| :: Printable(ps[k])
    ensures var ws := seq(|ps|, i requires 0 <= i < |ps| => Word(ps[i]));
            seq(|ws|, i requires 0 <= i < |ws| => ParseWord(ws[i])) == ps
  {
    var ws := seq(|ps|, i requires 0 <= i < |ps| => Word(ps[i]));
    forall i | 0 <= i < |ps| ensures ParseWord(ws[i]) == ps[i] {
      PrintableKey(ps[i]);
      ParseWordSpec(ps[i].0, if ps[i].1.Str? then ps[i].1.s else "");
    }
  }

  // ------------------------------------------------------------ the merge

  /** What a `props(...)` call leaves: the new `_props`, whether it called
      `update`, and the exception it raised, if any. */
  datatype Outcome = Outcome(props: map<string, PropValue>, updated: bool, error: Option<PropsError>)

  /** `props(add, remove=remove)` on `current`: the keys of `remove` that are
      present are deleted in place (absent ones are ignored), then every key
      of `add` whose current value differs is set; `update` is called when a
      key was deleted or set. A malformed `add` raises after the deletions,
      which stay. */
  function ApplyProps(current: map<string, PropValue>, add: Option<string>, remove: Option<string>): (r: Outcome)
  {
    match ParseProps(remove)
    case Failure(e) => Outcome(current, false, Some(e))
    case Success(rm) =>
      var gone := ToMap(rm).Keys;
      var d := current - gone;
      var removedAny := gone * current.Keys != {};
      match ParseProps(add)
      case Failure(e) => Outcome(d, false, Some(e))
      case Success(a) =>
        var am := ToMap(a);
        var setAny := exists k | k in am :: k !in d || d[k] != am[k];
        Outcome(d + am, removedAny || setAny, None)
  }

  /** The first loop of `props`, run on a copy: every key of `dict(pairs)`
      present in the map is deleted; `removed` says whether there was one. */
  method RemoveEach(p0: map<string, PropValue>, pairs: seq<(string, PropValue)>)
    returns (p: map<string, PropValue>, removed: bool)
    ensures p == p0 - ToMap(pairs).Keys
    ensures removed <==> ToMap(pairs).Keys * p0.Keys != {}
  {
    var keys := KeyOrder(pairs);
    KeyOrderSpec(pairs);
    p, removed := p0, false;
    for k := 0 to |keys|
      invariant p == p0 - Elems(keys[..k])
      invariant removed <==> exists j | 0 <= j < k :: keys[j] in p0
    {
      assert keys[..k + 1] == keys[..k] + [keys[k]];
      assert Elems(keys[..k + 1]) == Elems(keys[..k]) + {keys[k]};
      if keys[k] in p {
        removed := true;
        p := p - {keys[k]};
      }
    }
    assert keys[..|keys|] == keys;
    assert Elems(keys) == ToMap(pairs).Keys;
    if removed {
      var j :| 0 <= j < |keys| && keys[j] in p0;
      assert keys[j] in ToMap(pairs).Keys * p0.Keys;
    }
    if ToMap(pairs).Keys * p0.Keys != {} {
      var key :| key in ToMap(pairs).Keys * p0.Keys;
      assert key in keys;
    }
  }

  /** The second loop of `props`, run on a copy: the keys of the dict `am`
      are visited in its order `keys`, and each whose value differs from the
      map's (or that is missing there) is set; `changed` says whether there
      was one. */
  method SetEach(p0: map<string, PropValue>, am: map<string, PropValue>, keys: seq<string>)
    returns (p: map<string, PropValue>, changed: bool)
    requires NoDup(keys) && Elems(keys) == am.Keys
    ensures p == p0 + am
    ensures changed <==> exists k | k in am :: k !in p0 || p0[k] != am[k]
  {
    p, changed := p0, false;
    for k := 0 to |keys|
      invariant p == Overlay(p0, am, keys[..k])
      invariant changed <==> exists key | key in keys[..k] :: key !in p0 || p0[key] != am[key]
    {
      SetEachStep(p0, am, keys, k);
      var key := keys[k];
      if key !in p || p[key] != am[key] {
        changed := true;
        p := p[key := am[key]];
      }
    }
    assert keys[..|keys|] == keys;
    OverlayAll(p0, am, keys);
  }

  /** One turn of the loop of `SetEach`: the key has not been visited yet, so
      the working map still holds its original entry for it. */
  lemma SetEachStep(p0: map<string, PropValue>, am: map<string, PropValue>, keys: seq<string>, k: nat)
    requires NoDup(keys) && Elems(keys) == am.Keys && k < |keys|
    ensures keys[k] in am
    ensures var p := Overlay(p0, am, keys[..k]);
            && Overlay(p0, am, keys[..k + 1])
               == (if keys[k] !in p || p[keys[k]] != am[keys[k]] then p[keys[k] := am[keys[k]]] else p)
            && ((keys[k] !in p || p[keys[k]] != am[keys[k]]) <==> (keys[k] !in p0 || p0[keys[k]] != am[keys[k]]))
    ensures (exists key | key in keys[..k + 1] :: key !in p0 || p0[key] != am[key])
        <==> (exists key | key in keys[..k] :: key !in p0 || p0[key] != am[key])
             || keys[k] !in p0 || p0[keys[k]] != am[keys[k]]
  {
    var key := keys[k];
    assert key in Elems(keys);
    var p := Overlay(p0, am, keys[..k]);
    assert key !in keys[..k] by {
      forall j | 0 <= j < k ensures keys[j] != key { }
    }
    OverlayStep(p0, am, keys, k);
    if key in p && p[key] == am[key] {
      SetSame(p, key, am[key]);
    }
    ChangedStep(p0, am, keys, k);
  }

  /** Visiting key `k`, not visited before, sets it on top of the entries the
      earlier keys left, where it still has its original entry. */
  lemma OverlayStep(p0: map<string, PropValue>, am: map<string, PropValue>, keys: seq<string>, k: nat)
    requires Elems(keys) == am.Keys && k < |keys| && keys[k] !in keys[..k]
    ensures var p := Overlay(p0, am, keys[..k]);
            && Overlay(p0, am, keys[..k + 1]) == p[keys[k] := am[keys[k]]]
            && (keys[k] in p <==> keys[k] in p0)
            && (keys[k] in p ==> p[keys[k]] == p0[keys[k]])
  {
    var q := keys[..k + 1];
    assert q[..|q| - 1] == keys[..k] && q[|q| - 1] == keys[k];
  }

  /** Some key among the first `k + 1` changes iff one among the first `k`
      does or key `k` does. */
  lemma ChangedStep(p0: map<string, PropValue>, am: map<string, PropValue>, keys: seq<string>, k: nat)
    requires Elems(keys) == am.Keys && k < |keys|
    ensures (exists key | key in keys[..k + 1] :: key !in p0 || p0[key] != am[key])
        <==> (exists key | key in keys[..k] :: key !in p0 || p0[key] != am[key])
             || keys[k] !in p0 || p0[keys[k]] != am[keys[k]]
  {
    assert keys[..k + 1] == keys[..k] + [keys[k]];
  }

  /** The body of `props(add, remove=remove)` on a copy of `current`, which
      it edits in place; `needsUpdate` records whether to call `update`. */
  method RunProps(current: map<string, PropValue>, add: Option<string>, remove: Option<string>)
    returns (o: Outcome)
    ensures o == ApplyProps(current, add, remove)
  {
    var p := current;
    var rem := ParseProps(remove);
    if rem.Failure? {
      return Outcome(p, false, Some(rem.error));
    }
    var removed, changed;
    p, removed := RemoveEach(p, rem.value);
    var a := ParseProps(add);
    if a.Failure? {
      return Outcome(p, false, Some(a.error));
    }
    KeyOrderSpec(a.value);
    assert Elems(KeyOrder(a.value)) == ToMap(a.value).Keys;
    p, changed := SetEach(p, ToMap(a.value), KeyOrder(a.value));
    var needsUpdate := removed || changed;
    o := Outcome(p, needsUpdate, None);
  }

  /** A `props` call fails only on a malformed string, never on an absent key;
      on success the new map is the old one minus the removed keys, overlaid
      with `add`, and every other key keeps its value. */
  lemma ApplyPropsSuccess(current: map<string, PropValue>, add: Option<string>, remove: Option<string>)
    ensures var o := ApplyProps(current, add, remove);
            && (o.error.None? <==> ParseProps(remove).Success? && ParseProps(add).Success?)
            && (o.error.None? ==>
                  var gone, am := ToMap(ParseProps(remove).value).Keys, ToMap(ParseProps(add).value);
                  && o.props == (current - gone) + am
                  && forall k | k !in gone && k !in am ::
                       (k in o.props <==> k in current) && (k in current ==> o.props[k] == current[k]))
  {
  }

  /** `update` is called exactly when a present key was removed or the `add`
      overlay changed the map left by the removals; in particular whenever
      the map changed (but also when a key is removed and set back to its old
      value). Errors never call it. */
  lemma ApplyPropsUpdates(current: map<string, PropValue>, add: Option<string>, remove: Option<string>)
    ensures var o := ApplyProps(current, add, remove);
            && (o.error.Some? ==> !o.updated)
            && (o.error.None? ==>
                  var gone, am := ToMap(ParseProps(remove).value).Keys, ToMap(ParseProps(add).value);
                  var d := current - gone;
                  (o.updated <==> (exists k | k in gone :: k in current) || d + am != d))
            && (o.props != current && o.error.None? ==> o.updated)
  {
    var o := ApplyProps(current, add, remove);
    if o.error.None? {
      var gone, am := ToMap(ParseProps(remove).value).Keys, ToMap(ParseProps(add).value);
      var d := current - gone;
      if exists k | k in am :: k !in d || d[k] != am[k] {
        var k :| k in am && (k !in d || d[k] != am[k]);
        assert (d + am)[k] == am[k];
      }
      if forall k | k in am :: k in d && d[k] == am[k] {
        assert d + am == d;
      }
      if (exists k | k in gone :: k in current) {
        var k :| k in gone && k in current;
        assert k in gone * current.Keys;
      }
      if o.props != current && gone * current.Keys == {} {
        assert d == current;
      }
    }
  }

  /** A malformed `add` raises after the deletions of `remove`, which stay. */
  lemma ApplyPropsAddError(current: map<string, PropValue>, add: Option<string>, remove: Option<string>)
    requires ParseProps(remove).Success? && ParseProps(add).Failure?
    ensures var o := ApplyProps(current, add, remove);
            o == Outcome(current - ToMap(ParseProps(remove).value).Keys, false, Some(ParseProps(add).error))
  {
  }

  /** Repeating the same `props(add=...)` changes nothing and sends nothing. */
  lemma ApplyPropsIdempotent(current: map<string, PropValue>, add: string)
    requires ApplyProps(current, Some(add), None).error.None?
    ensures var once := ApplyProps(current, Some(add), None).props;
            ApplyProps(once, Some(add), None) == Outcome(once, false, None)
  {
    var once := ApplyProps(current, Some(add), None).props;
    var am := ToMap(ParseProps(Some(add)).value);
    assert ToMap(ParseProps(None).value) == map[];
    assert once - {} == once;
    assert once + am == once;
  }
}
