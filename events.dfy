/** Event listeners of an element: what `to_dict` makes of them (the merged
    `events` entry, element.py:52-54) and which handlers `handle_event`
    invokes (element.py:132-135). The methods are in element.dfy. */
module Events {

  /** An opaque token standing for a Python callable. */
  type Handler = nat

  /** An `EventListener`: the element it belongs to, the event type, the
      argument names the client sends, and the handler. */
  datatype Listener = Listener(elementId: int, eventType: string, args: seq<string>, handler: Handler)

  /** The argument names of the listeners of type `t`, concatenated in
      registration order. */
  function ArgsFor(ls: seq<Listener>, t: string): (r: seq<string>)
  {
    if ls == [] then []
    else
      var l := ls[|ls| - 1];
      ArgsFor(ls[..|ls| - 1], t) + (if l.eventType == t then l.args else [])
  }

  function Types(ls: seq<Listener>): (r: set<string>)
  {
    set i | 0 <= i < |ls| :: ls[i].eventType
  }

  /** The `events` entry of `to_dict`: one key per event type that has a
      listener, holding all their argument names in registration order. */
  function EventArgs(ls: seq<Listener>): (r: map<string, seq<string>>)
  {
    map t | t in Types(ls) :: ArgsFor(ls, t)
  }

  lemma {:induction false} ArgsForAppend(a: seq<Listener>, b: seq<Listener>, t: string)
    ensures ArgsFor(a + b, t) == ArgsFor(a, t) + ArgsFor(b, t)
    decreases |b|
  {
    if b == [] {
      assert a + b == a;
    } else {
      var n := |b| - 1;
      assert (a + b)[..|a + b| - 1] == a + b[..n];
      ArgsForAppend(a, b[..n], t);
    }
  }

  lemma {:induction false} ArgsForNone(ls: seq<Listener>, t: string)
    requires t !in Types(ls)
    ensures ArgsFor(ls, t) == []
  {
    if ls != [] {
      var init := ls[..|ls| - 1];
      assert Types(init) <= Types(ls) by {
        forall x | x in Types(init) ensures x in Types(ls) {
          var i :| 0 <= i < |init| && init[i].eventType == x;
          assert ls[i] == init[i];
        }
      }
      ArgsForNone(init, t);
    }
  }

  /** One step of the loop in `to_dict`: registering one more listener sets
      `events[type] = events.get(type, []) + args` and leaves every other
      type alone. */
  lemma EventArgsStep(ls: seq<Listener>, l: Listener)
    ensures var e := EventArgs(ls);
            EventArgs(ls + [l]) == e[l.eventType := (if l.eventType in e then e[l.eventType] else []) + l.args]
  {
    var e := EventArgs(ls);
    var ls' := ls + [l];
    assert ls'[..|ls'| - 1] == ls;
    assert Types(ls') == Types(ls) + {l.eventType} by {
      forall x | x in Types(ls') ensures x in Types(ls) + {l.eventType} {
        var i :| 0 <= i < |ls'| && ls'[i].eventType == x;
        if i < |ls| { assert ls'[i] == ls[i]; }
      }
      forall x | x in Types(ls) ensures x in Types(ls') {
        var i :| 0 <= i < |ls| && ls[i].eventType == x;
        assert ls'[i] == ls[i];
      }
      assert ls'[|ls|] == l;
    }
    if l.eventType !in e {
      ArgsForNone(ls, l.eventType);
    }
    var want := e[l.eventType := (if l.eventType in e then e[l.eventType] else []) + l.args];
    assert EventArgs(ls').Keys == want.Keys;
    forall t | t in want ensures EventArgs(ls')[t] == want[t] {
      assert ArgsFor(ls', t) == ArgsFor(ls, t) + (if l.eventType == t then l.args else []);
    }
  }

  /** The handlers of the listeners of type `t`, in registration order. */
  function Matching(ls: seq<Listener>, t: string): (r: seq<Handler>)
  {
    if ls == [] then []
    else (if ls[0].eventType == t then [ls[0].handler] else []) + Matching(ls[1..], t)
  }

  /** Matching distributes over concatenation, so handlers run in
      registration order; and a handler is invoked exactly when some listener
      of that type carries it. */
  lemma {:induction false} MatchingSpec(a: seq<Listener>, b: seq<Listener>, t: string)
    ensures Matching(a + b, t) == Matching(a, t) + Matching(b, t)
    ensures forall h :: h in Matching(a, t) <==> exists i | 0 <= i < |a| :: a[i].eventType == t && a[i].handler == h
  {
    if a == [] {
      assert a + b == b;
    } else {
      assert (a + b)[1..] == a[1..] + b;
      MatchingSpec(a[1..], b, t);
      forall h ensures h in Matching(a, t) <==> exists i | 0 <= i < |a| :: a[i].eventType == t && a[i].handler == h {
        if h in Matching(a[1..], t) {
          var i :| 0 <= i < |a[1..]| && a[1..][i].eventType == t && a[1..][i].handler == h;
          assert a[i + 1] == a[1..][i];
        }
        if exists i | 0 <= i < |a| :: a[i].eventType == t && a[i].handler == h {
          var i :| 0 <= i < |a| && a[i].eventType == t && a[i].handler == h;
          if i > 0 { assert a[1..][i - 1] == a[i]; }
        }
      }
    }
  }
}
