/** The element tree of one client: `Element` with its slots, the `Client`
    registry of elements and its slot stack, and the `update` that sends the
    subtree of an element to the browser (element.py). */
module ElementTree {
  import opened Wrappers
  import opened Containers
  import opened ClassList
  import St = Styles
  import Pr = Props
  import opened Events
  import opened Subtree

  /** The exceptions of the core that are not parse errors. */
  datatype PyError =
      /** `msg['type']` on a message without a `'type'` key. */
    | KeyError(key: string)
      /** `slot_stack.pop()` on an empty stack. */
    | IndexError

  /** The payload `to_dict` builds for one element. `slots` lists, in slot
      order, each slot name with the ids of its children. */
  datatype ElementDict = ElementDict(
    id: int,
    tag: string,
    classes: seq<string>,
    style: map<string, string>,
    props: map<string, Pr.PropValue>,
    events: map<string, seq<string>>,
    text: string,
    slots: seq<(string, seq<int>)>)

  /** One Socket.IO emission: the event name, the room (the client's id) and
      the `elements` payload. */
  datatype Message = Message(event: string, room: int, elements: map<int, ElementDict>)

  /** The process-wide flag `update` consults: whether the event loop runs
      (`globals.loop`). */
  class Runtime {
    var loopRunning: bool

    constructor (loopRunning: bool)
      ensures this.loopRunning == loopRunning
    {
      this.loopRunning := loopRunning;
    }
  }

  /** A named slot of an element; its children are held by id. */
  class Slot {
    const parentId: int
    const name: string
    var children: seq<int>

    constructor (parentId: int, name: string)
      ensures this.parentId == parentId && this.name == name && children == []
    {
      this.parentId := parentId;
      this.name := name;
      children := [];
    }
  }

  class Client {
    const id: int
    const runtime: Runtime
    var nextElementId: int
    var elements: map<int, Element>
    var slotStack: seq<Slot>
    /** Every slot created for an element of this client. */
    ghost var slotsRepr: set<Slot>
    /** Every element registered with this client. */
    ghost var elementsRepr: set<Element>
    /** For every element put into a slot, that slot. */
    ghost var placed: map<int, Slot>

    /** A client with no elements yet. */
    constructor (id: int, runtime: Runtime)
      ensures Valid()
      ensures this.id == id && this.runtime == runtime
      ensures nextElementId == 0 && elements == map[] && slotStack == [] && slotsRepr == {} && elementsRepr == {}
      ensures placed == map[]
    {
      this.id := id;
      this.runtime := runtime;
      nextElementId := 0;
      elements := map[];
      slotStack := [];
      slotsRepr := {};
      elementsRepr := {};
      placed := map[];
    }

    /** Every registered element was numbered before `nextElementId` and is
        consistent (`ElementOk`), every known slot is (`SlotOk`), only
        registered elements have been placed in a slot, and the slot stack
        holds known slots. */
    ghost predicate Valid()
      reads this, elementsRepr`slotNames, elementsRepr`slots, slotsRepr`children
    {
      && (forall i | i in elements :: i < nextElementId && elements[i] in elementsRepr)
      && (forall i {:trigger ElementOk(i, elements[i])} | i in elements :: ElementOk(i, elements[i]))
      && (forall s {:trigger SlotOk(s)} | s in slotsRepr :: SlotOk(s))
      && (forall i | i in placed :: i in elements)
      && (forall k | 0 <= k < |slotStack| :: slotStack[k] in slotsRepr)
    }

    /** Element `e` sits under its own id `i` and belongs to this client; its
        slot names are listed once each, in the order of the `slots` dict;
        each of its slots is known, points back to it and carries the name it
        is stored under. */
    ghost predicate ElementOk(i: int, e: Element)
      reads `slotsRepr, e`slotNames, e`slots
    {
      && e.id == i && e.client == this
      && NoDup(e.slotNames)
      && (forall n | n in e.slotNames :: n in e.slots)
      && (forall n | n in e.slots :: n in e.slotNames)
      && (forall n | n in e.slots :: e.slots[n] in slotsRepr && e.slots[n].parentId == i && e.slots[n].name == n)
      && e.defaultSlot in slotsRepr && e.defaultSlot.parentId == i
    }

    /** The element of slot `s` is registered, and so is every child of `s`,
        each created after that element, listed once and placed in `s`. */
    ghost predicate SlotOk(s: Slot)
      reads `elements, `placed, s`children
    {
      && s.parentId in elements
      && NoDup(s.children)
      && forall c | c in s.children :: c in elements && s.parentId < c && c in placed && placed[c] == s
    }

    /** The registration step of `Element.__init__`: the new element takes
        the next id, the counter advances, and the element and its fresh
        `'default'` slot become known. */
    method Adopt(e: Element)
      requires Valid()
      requires e.client == this && e.id == nextElementId && e !in elementsRepr
      requires e.defaultSlot !in slotsRepr && e.defaultSlot.parentId == e.id && e.defaultSlot.children == []
      requires e.defaultSlot.name == "default"
      requires e.slotNames == ["default"] && e.slots == map["default" := e.defaultSlot]
      modifies this
      ensures Valid()
      ensures nextElementId == old(nextElementId) + 1 && elements == old(elements)[e.id := e]
      ensures slotsRepr == old(slotsRepr) + {e.defaultSlot} && elementsRepr == old(elementsRepr) + {e}
      ensures slotStack == old(slotStack) && placed == old(placed)
    {
      nextElementId := nextElementId + 1;
      slotsRepr := slotsRepr + {e.defaultSlot};
      elements := elements[e.id := e];
      elementsRepr := elementsRepr + {e};
      forall i | i in elements ensures ElementOk(i, elements[i]) {
        if i != e.id {
          assert old(ElementOk(i, elements[i]));
        }
      }
      forall s | s in slotsRepr ensures SlotOk(s) {
        if s != e.defaultSlot {
          assert old(SlotOk(s));
        }
      }
    }

    /** Appends `child` to the children of a known slot, for a registered child
        created after the slot's element and not yet in any slot. */
    method AppendChild(slot: Slot, child: int)
      requires Valid() && slot in slotsRepr && child in elements && slot.parentId < child
      requires child !in placed
      modifies slot`children, `placed
      ensures Valid()
      ensures slot.children == old(slot.children) + [child]
      ensures placed == old(placed)[child := slot]
    {
      assert SlotOk(slot);
      assert child !in slot.children;
      NoDupAppend(slot.children, [child]);
      slot.children := slot.children + [child];
      placed := placed[child := slot];
      forall s | s in slotsRepr ensures SlotOk(s) {
        assert old(SlotOk(s));
      }
    }

    /** The child lists of registered element `i`. */
    ghost function Lists(i: int): (r: seq<seq<int>>)
      reads this, elementsRepr`slotNames, elementsRepr`slots, slotsRepr`children
      requires Valid() && i in elements
    {
      assert ElementOk(i, elements[i]);
      elements[i].ChildLists()
    }

    /** `f` records, for every registered element, its child lists. */
    ghost predicate Mirrors(f: Forest)
      reads this, elementsRepr`slotNames, elementsRepr`slots, slotsRepr`children
    {
      && Valid()
      && f.next == nextElementId && f.nodes.Keys == elements.Keys
      && forall i | i in elements :: f.nodes[i] == Lists(i)
    }

    /** The tree as `collect_ids` walks it: each element's child lists. */
    ghost function Tree(): (f: Forest)
      reads this, elementsRepr`slotNames, elementsRepr`slots, slotsRepr`children
      requires Valid()
      ensures WellFormed(f) && UniqueParents(f) && Mirrors(f)
    {
      var f := Subtree.Forest(nextElementId, map i | i in elements :: Lists(i));
      assert Mirrors(f);
      MirrorsWellFormed(f);
      MirrorsUniqueParents(f);
      f
    }

    /** The child lists of a consistent client form a forest in which every
        child id is above its parent's. */
    lemma MirrorsWellFormed(f: Forest)
      requires Mirrors(f)
      ensures WellFormed(f)
    {
      forall i | i in f.nodes
        ensures i < f.next && forall c | c in Children(f, i) :: c in f.nodes && i < c
      {
        var e := elements[i];
        assert ElementOk(i, e);
        var lists := e.ChildLists();
        forall c | c in Children(f, i) ensures c in f.nodes && i < c {
          FlattenMembers(lists, c);
          var k :| 0 <= k < |lists| && c in lists[k];
          var s := e.slots[e.slotNames[k]];
          assert s in slotsRepr && s.parentId == i;
          assert SlotOk(s) && c in s.children;
        }
      }
    }

    /** Every element of a consistent client sits in at most one slot, once,
        and the slots of one element are different slots, so the forest is a
        tree. */
    lemma MirrorsUniqueParents(f: Forest)
      requires Mirrors(f)
      ensures UniqueParents(f)
    {
      forall i | i in f.nodes ensures NoDup(Children(f, i)) {
        var e := elements[i];
        assert ElementOk(i, e);
        var lists := e.ChildLists();
        assert f.nodes[i] == lists;
        forall k | 0 <= k < |lists| ensures NoDup(lists[k]) {
          assert SlotOk(e.slots[e.slotNames[k]]);
        }
        forall k1, k2, c | 0 <= k1 < |lists| && 0 <= k2 < |lists| && c in lists[k1] && c in lists[k2]
          ensures k1 == k2
        {
          var s1, s2 := e.slots[e.slotNames[k1]], e.slots[e.slotNames[k2]];
          assert SlotOk(s1) && SlotOk(s2);
          assert s1 == s2;
          assert e.slotNames[k1] == e.slotNames[k2];
        }
        FlattenNoDup(lists);
      }
      forall i, j, c | i in f.nodes && j in f.nodes && c in Children(f, i) && c in Children(f, j)
        ensures i == j
      {
        var ei, ej := elements[i], elements[j];
        assert ElementOk(i, ei) && ElementOk(j, ej);
        FlattenMembers(f.nodes[i], c);
        FlattenMembers(f.nodes[j], c);
        var k1 :| 0 <= k1 < |f.nodes[i]| && c in f.nodes[i][k1];
        var k2 :| 0 <= k2 < |f.nodes[j]| && c in f.nodes[j][k2];
        var s1, s2 := ei.slots[ei.slotNames[k1]], ej.slots[ej.slotNames[k2]];
        assert f.nodes[i] == ei.ChildLists() && f.nodes[j] == ej.ChildLists();
        assert SlotOk(s1) && SlotOk(s2);
      }
    }

    /** Only one forest mirrors the client. */
    lemma MirrorsUnique(f: Forest)
      requires Mirrors(f)
      ensures f == Tree()
    {
      assert f.nodes == Tree().nodes;
    }

    /** `collect_ids` lists every element of the subtree it walks once. */
    lemma CollectsEachOnce(eid: int)
      requires Valid() && eid in elements
      ensures NoDup(PostOrder(Tree(), eid))
    {
      PostOrderNoDup(Tree(), eid);
    }

    /** `collect_ids(eid)` appending to `ids`: the ids of the subtree owned
        by `eid`, in post-order. */
    method CollectIds(ghost f: Forest, eid: int, ids: seq<int>) returns (out: seq<int>)
      requires Mirrors(f) && WellFormed(f) && eid in elements
      ensures Mirrors(f)
      ensures out == ids + PostOrder(f, eid)
      decreases nextElementId - eid, 2
    {
      out := CollectSlots(f, eid, ids);
      PostOrderSlotsAll(f, eid);
      out := out + [eid];
    }

    /** The loop of `collect_ids` over the slots of element `eid`. */
    method CollectSlots(ghost f: Forest, eid: int, ids: seq<int>) returns (out: seq<int>)
      requires Mirrors(f) && WellFormed(f) && eid in elements
      ensures Mirrors(f)
      ensures out == ids + PostOrderSlots(f, eid, |f.nodes[eid]|)
      decreases nextElementId - eid, 1
    {
      var e := elements[eid];
      var names, slots := e.slotNames, e.slots;
      assert ElementOk(eid, e) && f.nodes[eid] == e.ChildLists();
      ghost var lists := f.nodes[eid];
      assert |lists| == |names| && forall k | 0 <= k < |names| :: names[k] in slots && slots[names[k]].children == lists[k];
      out := ids;
      for k := 0 to |names|
        invariant Mirrors(f)
        invariant out == ids + PostOrderSlots(f, eid, k)
      {
        var slot := slots[names[k]];
        PostOrderSlotsStep(f, eid, k);
        AppendAssoc(ids, PostOrderSlots(f, eid, k), PostOrderAll(f, eid, lists[k]));
        out := CollectChildren(f, eid, slot.children, out);
      }
    }

    /** The loop of `collect_ids` over the children `cs` of one slot of
        element `parent`. */
    method CollectChildren(ghost f: Forest, parent: int, cs: seq<int>, ids: seq<int>) returns (out: seq<int>)
      requires Mirrors(f) && WellFormed(f) && parent in elements
      requires forall c | c in cs :: c in f.nodes && parent < c
      ensures Mirrors(f)
      ensures out == ids + PostOrderAll(f, parent, cs)
      decreases nextElementId - parent, 0
    {
      out := ids;
      for j := 0 to |cs|
        invariant Mirrors(f)
        invariant out == ids + PostOrderFirst(f, parent, cs, j)
      {
        PostOrderFirstStep(f, parent, cs, j);
        out := CollectIds(f, cs[j], out);
      }
      PostOrderFirstAll(f, parent, cs);
    }

    /** The `elements` payload of `update`: for each collected id, the
        `to_dict()` of the element registered under it. Every record is
        keyed by its own element's id. */
    function Batch(ids: seq<int>): (r: map<int, ElementDict>)
      reads this, elementsRepr, slotsRepr
      requires Valid()
      requires forall i | i in ids :: i in elements
      ensures r.Keys == Elems(ids)
      ensures forall i | i in r :: r[i].id == i && r[i].tag == elements[i].tag
    {
      map i | i in ids :: Dict(i)
    }

    /** `to_dict()` of registered element `i`. */
    function Dict(i: int): (d: ElementDict)
      reads this, elementsRepr, slotsRepr
      requires Valid() && i in elements
      ensures d.id == i && d.tag == elements[i].tag
    {
      assert ElementOk(i, elements[i]);
      elements[i].AsDict()
    }

    /** The message `update` on element `eid` schedules. */
    ghost function Pending(eid: int): (r: Message)
      reads this, elementsRepr, slotsRepr
      requires Valid() && eid in elements
    {
      Message("update", id, Batch(PostOrder(Tree(), eid)))
    }
  }

  class Element {
    const client: Client
    const id: int
    const tag: string
    /** The slot `__init__` created under the name `'default'`. */
    const defaultSlot: Slot
    var classes: seq<string>
    var style: map<string, string>
    var props: map<string, Pr.PropValue>
    var listeners: seq<Listener>
    var text: string
    /** The keys of the `slots` dict, in insertion order. */
    var slotNames: seq<string>
    var slots: map<string, Slot>
    var visible: bool

    /** The element belongs to a consistent client, under its own id, and
        every listed slot name has a slot. */
    ghost predicate Registered()
      reads client, client.elementsRepr`slotNames, client.elementsRepr`slots, client.slotsRepr`children
      reads `slotNames, `slots
    {
      client.Valid() && id in client.elements && client.elements[id] == this && SlotsNamed()
    }

    /** The element is registered and its class list holds no duplicate. */
    ghost predicate Valid()
      reads client, client.elementsRepr`slotNames, client.elementsRepr`slots, client.slotsRepr`children
      reads `slotNames, `slots, `classes
    {
      Registered() && NoDup(classes)
    }

    predicate SlotsNamed()
      reads `slotNames, `slots
    {
      forall n | n in slotNames :: n in slots
    }

    /** `Element(tag)` with `client` standing for `globals.client_stack[-1]`:
        it takes the client's next id and advances the counter, starts with
        empty classes, style, props, listeners and text and one empty
        `'default'` slot, is registered with the client, and, when the slot
        stack is not empty, becomes the last child of the top slot; no other
        slot changes. */
    constructor (client: Client, tag: string)
      requires client.Valid()
      modifies client, client.slotsRepr
      ensures Valid()
      ensures this.client == client && this.tag == tag
      ensures id == old(client.nextElementId) && client.nextElementId == id + 1
      ensures client.elements == old(client.elements)[id := this]
      ensures classes == [] && style == map[] && props == map[] && listeners == [] && text == ""
      ensures visible
      ensures fresh(defaultSlot) && defaultSlot.parentId == id && defaultSlot.name == "default"
      ensures defaultSlot.children == []
      ensures slotNames == ["default"] && slots == map["default" := defaultSlot]
      ensures client.slotStack == old(client.slotStack)
      ensures client.slotsRepr == old(client.slotsRepr) + {defaultSlot}
      ensures client.elementsRepr == old(client.elementsRepr) + {this}
      ensures forall s | s in old(client.slotsRepr) ::
                s.children == if old(|client.slotStack|) > 0 && s == old(client.slotStack[|client.slotStack| - 1])
                              then old(s.children) + [id] else old(s.children)
    {
      var newId := client.nextElementId;
      this.client := client;
      this.id := newId;
      this.tag := tag;
      var slot := new Slot(newId, "default");
      defaultSlot := slot;
      classes := [];
      style := map[];
      props := map[];
      listeners := [];
      text := "";
      slotNames := ["default"];
      slots := map["default" := slot];
      visible := true;
      new;
      if |client.slotStack| > 0 {
        var top := client.slotStack[|client.slotStack| - 1];
        assert client.SlotOk(top) && top.parentId < newId;
      }
      assert newId !in client.placed;
      client.Adopt(this);
      assert forall s | s in old(client.slotsRepr) :: s.children == old(s.children);
      if |client.slotStack| > 0 {
        var top := client.slotStack[|client.slotStack| - 1];
        client.AppendChild(top, newId);
        assert forall s | s in old(client.slotsRepr) && s != top :: s.children == old(s.children);
      }
    }

    /** The child lists of the slots, in slot order. */
    function ChildLists(): (r: seq<seq<int>>)
      reads `slotNames, `slots, slots.Values`children
      requires SlotsNamed()
      ensures |r| == |slotNames|
      ensures forall k | 0 <= k < |slotNames| :: r[k] == slots[slotNames[k]].children
    {
      ChildListsOf(slotNames, slots)
    }

    /** The `slots` entry of `to_dict`: each slot name with its child ids,
        that is, the slot names paired with `ChildLists()`. */
    function SlotEntries(): (r: seq<(string, seq<int>)>)
      reads this, slots.Values
      requires SlotsNamed()
      ensures |r| == |slotNames| == |ChildLists()|
      ensures forall k | 0 <= k < |r| :: r[k].0 == slotNames[k] && r[k].1 == ChildLists()[k]
    {
      seq(|slotNames|, k reads this, slots.Values
                          requires 0 <= k < |slotNames| && slotNames[k] in slots
                          => (slotNames[k], slots[slotNames[k]].children))
    }

    /** The `slots` entry of `to_dict` is what `collect_ids` walks: entry `k`
        holds the child lists of slot `k` in the client's tree, so every id
        it lists is registered and was created after this element. */
    lemma SlotEntriesTree()
      requires Registered()
      ensures var f := client.Tree();
              forall k | 0 <= k < |slotNames| :: SlotEntries()[k].1 == f.nodes[id][k]
      ensures forall k, c | 0 <= k < |slotNames| && c in SlotEntries()[k].1 :: c in client.elements && id < c
    {
      var f := client.Tree();
      assert client.ElementOk(id, this);
      assert f.nodes[id] == ChildLists();
      forall k, c | 0 <= k < |slotNames| && c in SlotEntries()[k].1 ensures c in client.elements && id < c {
        FlattenMembers(f.nodes[id], c);
        assert c in Children(f, id);
      }
    }

    /** What `to_dict` returns; the `events` entry merges the listeners of
        each type (`Events.EventArgs`). */
    function AsDict(): (r: ElementDict)
      reads this, slots.Values
      requires SlotsNamed()
    {
      ElementDict(id, tag, classes, style, props, EventArgs(listeners), text, SlotEntries())
    }

    /** `to_dict()`: the loop over the listeners builds exactly the merged
        `events` map. */
    method ToDict() returns (d: ElementDict)
      requires Registered()
      ensures Registered()
      ensures d == AsDict()
    {
      var events: map<string, seq<string>> := map[];
      for i := 0 to |listeners|
        invariant events == EventArgs(listeners[..i])
      {
        var l := listeners[i];
        EventArgsStep(listeners[..i], l);
        assert listeners[..i + 1] == listeners[..i] + [l];
        events := events[l.eventType := (if l.eventType in events then events[l.eventType] else []) + l.args];
      }
      assert listeners[..|listeners|] == listeners;
      d := ElementDict(id, tag, classes, style, props, events, text, SlotEntries());
    }

    /** `update()`: when the event loop runs, the one `'update'` message it
        schedules for the client's room, holding `to_dict()` of every element
        of the subtree this element owns; otherwise nothing. */
    method Update() returns (sent: Option<Message>)
      requires Valid()
      ensures Valid()
      ensures sent == if client.runtime.loopRunning then Some(client.Pending(id)) else None
    {
      if !client.runtime.loopRunning {
        return None;
      }
      ghost var f := client.Tree();
      var ids := client.CollectIds(f, id, []);
      assert ids == PostOrder(f, id);
      client.MirrorsUnique(f);
      return Some(Message("update", client.id, client.Batch(ids)));
    }

    /** `on_visibility_change(visible)`: the class list becomes
        `Visibility(classes, visible)`, and `update` runs exactly when the
        list changed. */
    method OnVisibilityChange(visible: bool) returns (sent: Option<Message>)
      requires Valid()
      modifies `classes
      ensures Valid()
      ensures classes == Visibility(old(classes), visible)
      ensures sent == if VisibilityUpdates(old(classes), visible) && client.runtime.loopRunning
                      then Some(client.Pending(id)) else None
    {
      sent := None;
      assert NoDup(Visibility(classes, visible)) by {
        VisibilitySpec(classes, visible);
      }
      if visible && Hidden in classes {
        classes := RemoveFirst(classes, Hidden);
        sent := Update();
      }
      if !visible && Hidden !in classes {
        classes := classes + [Hidden];
        sent := Update();
      }
    }

    /** `add_slot(name)`: a new empty slot under `name`, replacing any slot of
        that name in place (a new name goes last). */
    method AddSlot(name: string) returns (s: Slot)
      requires Valid()
      modifies `slots, `slotNames, client`slotsRepr
      ensures Valid()
      ensures fresh(s) && s.parentId == id && s.name == name && s.children == []
      ensures slots == old(slots)[name := s]
      ensures slotNames == if name in old(slots) then old(slotNames) else old(slotNames) + [name]
      ensures client.slotsRepr == old(client.slotsRepr) + {s}
    {
      s := new Slot(id, name);
      assert client.ElementOk(id, this);
      if name !in slots {
        slotNames := slotNames + [name];
      }
      slots := slots[name := s];
      client.slotsRepr := client.slotsRepr + {s};
      assert client.Valid() by {
        forall i | i in client.elements ensures client.ElementOk(i, client.elements[i]) {
          if i != id {
            assert old(client.ElementOk(i, client.elements[i]));
          }
        }
        forall t | t in client.slotsRepr ensures client.SlotOk(t) {
          if t != s {
            assert old(client.SlotOk(t));
          }
        }
      }
    }

    /** `__enter__`: the default slot becomes the top of the slot stack. */
    method Enter()
      requires Valid()
      modifies client`slotStack
      ensures Valid()
      ensures client.slotStack == old(client.slotStack) + [defaultSlot]
    {
      assert client.ElementOk(id, this);
      client.slotStack := client.slotStack + [defaultSlot];
    }

    /** `__exit__`: pops the top of the slot stack, whichever element pushed
        it; an empty stack raises `IndexError`. */
    method Exit() returns (err: Option<PyError>)
      requires Valid()
      modifies client`slotStack
      ensures Valid()
      ensures err.None? <==> |old(client.slotStack)| > 0
      ensures err.Some? ==> err.value == IndexError && client.slotStack == old(client.slotStack)
      ensures err.None? ==> client.slotStack == old(client.slotStack[..|client.slotStack| - 1])
    {
      if |client.slotStack| == 0 {
        return Some(IndexError);
      }
      client.slotStack := client.slotStack[..|client.slotStack| - 1];
      return None;
    }

    /** `classes(add, remove=remove, replace=replace)`: the new list is
        `MergeClasses` of the old one, and `update` runs exactly when the list
        changed. */
    method Classes(add: Option<string>, remove: Option<string>, replace: Option<string>)
      returns (sent: Option<Message>)
      requires Valid()
      modifies `classes
      ensures Valid()
      ensures classes == MergeClasses(old(classes), add, remove, replace)
      ensures sent == if old(classes) != classes && client.runtime.loopRunning
                      then Some(client.Pending(id)) else None
    {
      sent := None;
      var newClasses := MergeClasses(classes, add, remove, replace);
      MergeClassesMembers(classes, add, remove, replace);
      if classes != newClasses {
        classes := newClasses;
        sent := Update();
      }
    }

    /** `style(add, remove=remove, replace=replace)`: the new map, the
        exception and whether `update` ran are those of `St.ApplyStyle`,
        computed by `St.RunStyle` and stored in one step. Without `replace`
        the working map is `self._style` itself, so the edits made before an
        exception are kept. */
    method Style(add: Option<string>, remove: Option<string>, replace: Option<string>)
      returns (err: Option<St.StyleError>, sent: Option<Message>)
      requires Valid()
      modifies `style
      ensures Valid()
      ensures var o := St.ApplyStyle(old(style), add, remove, replace);
              && style == o.style && err == o.error
              && sent == if o.updated && client.runtime.loopRunning then Some(client.Pending(id)) else None
    {
      sent := None;
      var o := St.RunStyle(style, add, remove, replace);
      style, err := o.style, o.error;
      if o.updated {
        sent := Update();
      }
    }

    /** `props(add, remove=remove)`: the keys of `remove` that are present are
        deleted, then each key of `add` whose value differs is set; the new
        map, the exception and whether `update` ran are those of
        `Pr.ApplyProps`. */
    method Props(add: Option<string>, remove: Option<string>)
      returns (err: Option<Pr.PropsError>, sent: Option<Message>)
      requires Valid()
      modifies `props
      ensures Valid()
      ensures var o := Pr.ApplyProps(old(props), add, remove);
              && props == o.props && err == o.error
              && sent == if o.updated && client.runtime.loopRunning then Some(client.Pending(id)) else None
    {
      sent := None;
      var o := Pr.RunProps(props, add, remove);
      props, err := o.props, o.error;
      if o.updated {
        sent := Update();
      }
    }

    /** `on(type, handler, args)`: a listener is added, after all earlier
        ones, exactly when a handler is given; the element's `events` entry
        then gains the new argument names under `type`. */
    method On(eventType: string, handler: Option<Handler>, args: seq<string>)
      modifies `listeners
      ensures listeners == old(listeners) + (if handler.Some? then [Listener(id, eventType, args, handler.value)] else [])
      ensures var e := old(EventArgs(listeners));
              EventArgs(listeners)
                == if handler.None? then e
                   else e[eventType := (if eventType in e then e[eventType] else []) + args]
    {
      if handler.Some? {
        EventArgsStep(listeners, Listener(id, eventType, args, handler.value));
        listeners := listeners + [Listener(id, eventType, args, handler.value)];
      }
    }

    /** `handle_event(msg)`: the handlers invoked, in order, are those of the
        listeners whose type is `msg['type']`; a message without `'type'`
        raises `KeyError` as soon as there is a listener to test. */
    method HandleEvent(msg: map<string, string>) returns (r: Result<seq<Handler>, PyError>)
      ensures "type" in msg ==> r == Success(Matching(listeners, msg["type"]))
      ensures "type" !in msg ==> r == if listeners == [] then Success([]) else Failure(KeyError("type"))
    {
      var invoked: seq<Handler> := [];
      for i := 0 to |listeners|
        invariant "type" in msg ==> invoked == Matching(listeners[..i], msg["type"])
        invariant "type" !in msg ==> i == 0 && invoked == []
      {
        if "type" !in msg {
          return Failure(KeyError("type"));
        }
        MatchingSpec(listeners[..i], [listeners[i]], msg["type"]);
        assert listeners[..i + 1] == listeners[..i] + [listeners[i]];
        if listeners[i].eventType == msg["type"] {
          invoked := invoked + [listeners[i].handler];
        }
      }
      assert listeners[..|listeners|] == listeners;
      return Success(invoked);
    }
  }

  /** The child lists of the slots named by `names`, in that order. */
  function ChildListsOf(names: seq<string>, slots: map<string, Slot>): (r: seq<seq<int>>)
    reads slots.Values`children
    requires forall n | n in names :: n in slots
    ensures |r| == |names|
    ensures forall k | 0 <= k < |names| :: r[k] == slots[names[k]].children
  {
    if names == [] then []
    else ChildListsOf(names[..|names| - 1], slots) + [slots[names[|names| - 1]].children]
  }

  /** `with parent: Element(tag)`: the child goes into the parent's default
      slot, as its last child, and the slot stack is as before. */
  method ScopedChild(parent: Element, tag: string) returns (child: Element)
    requires parent.Valid()
    modifies parent.client, parent.client.slotsRepr
    ensures parent.Valid() && child.Valid() && child.client == parent.client
    ensures child.id == old(parent.client.nextElementId)
    ensures parent.defaultSlot.children == old(parent.defaultSlot.children) + [child.id]
    ensures parent.client.slotStack == old(parent.client.slotStack)
  {
    var c := parent.client;
    parent.Enter();
    child := new Element(c, tag);
    var _ := parent.Exit();
  }
}
