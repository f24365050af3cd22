# A verified model of NiceGUI's `Element`

This project models the core of NiceGUI's `nicegui/element.py`: the `Element`
class every UI element builds on, together with the parts of the client it
touches (the element registry, the id counter and the slot stack).

- **Construction.** An element takes the client's next id, registers itself,
  gets one empty `'default'` slot and becomes the last child of the slot on
  top of the client's slot stack, when there is one. `with element:` pushes
  the element's default slot and pops it again.
- **Classes, styles and props.** Each has a small language.
  - Classes are space-separated words, merged without duplicates and in order.
  - Styles are `key: value` declarations separated by `;`.
  - Props are `key=value` tokens and bare flags, read by a `shlex`-style lexer.

  For each of the three, the merge is a pure function (`ClassList.MergeClasses`,
  `Styles.ApplyStyle`, `Props.ApplyProps`). The element method stores the
  result and calls `update` exactly when the source does.
- **Visibility.** `on_visibility_change` adds or removes the `'hidden'` class.
- **Events.** `on` registers a listener only when a handler is given.
  `handle_event` invokes the handlers whose event type matches, in
  registration order.
- **Serialisation.** `to_dict` produces the dictionary sent to the browser.
  Its `events` entry merges the argument names per event type. Its `slots`
  entry gives the child ids per slot.
- **`update`.** When the event loop runs, it collects the ids of the subtree
  the element owns in post-order (`collect_ids`). It then sends one
  `'update'` message with `to_dict()` of each of those elements.

The element, its slots and the client are Dafny classes whose fields the
methods update in place. `Client.Valid` is the invariant every method keeps:
- every registered element sits under its own id;
- every slot child was created after the slot's owner;
- every element is the child of at most one slot and is listed there once
  (the ghost map `placed` records that slot), so the elements form a tree;
- the slot stack holds known slots.

The ghost function `Client.Tree` views the registry as a pure forest
(`Subtree.Forest`). `collect_ids` is proved against `Subtree.PostOrder` on that
forest, and the properties of the post-order are proved there.

Two behaviours of the source are modelled as written:

- **Style aliasing.** When `style` is called without `replace`, the working
  dictionary *is* the element's `_style`. So edits made before an exception
  are kept, and the final comparison compares the map with itself, which means
  `update` is never called (`Styles.ApplyStyleUpdates`).
- **Props deletions before an error.** The deletions of `props(remove=...)`
  are made in place, so they stay even when parsing `add` raises afterwards
  (`Props.ApplyPropsAddError`).

## Model

| member | source | states |
|---|---|---|
| ElementTree.Element.constructor | nicegui/element.py:14-30 | the new element's id is the old counter, and the counter goes up by one; it starts with empty classes, style, props, listeners and text, is visible, has exactly one fresh empty `'default'` slot, and is registered under its id; the top slot of a non-empty stack gains the id as its last child, no other slot changes; the client invariant holds afterwards |
| ElementTree.Client.Adopt | nicegui/element.py:16-28 | registering a fresh element with its default slot advances the counter by one, adds exactly that element and slot, leaves the stack alone and keeps the client invariant |
| ElementTree.Client.AppendChild | nicegui/element.py:29-30 | appending a registered child that was created after the slot's owner and is in no slot yet adds it last to that slot only, records that slot as the child's place, and keeps the client invariant |
| ElementTree.Client.Tree | nicegui/element.py:28-30 | the registry seen as a forest is well formed (every element is below the counter, and every child id is registered and greater than its parent's id) and is a tree: no element's child lists repeat an id, and no id is a child of two elements |
| ElementTree.Client.MirrorsUniqueParents | nicegui/element.py:28-30 | since each element is appended once, to one slot, any forest that mirrors the registry lists each child once and under one parent only |
| ElementTree.Client.MirrorsUnique | nicegui/element.py:143-144 | a forest that mirrors the registry is the registry's forest |
| ElementTree.Element.OnVisibilityChange | nicegui/element.py:32-38 | the class list becomes `Visibility(old, visible)`, it stays duplicate-free, and an update is sent exactly when `'hidden'` was removed or added |
| ClassList.Visibility | nicegui/element.py:32-38 | the class list `on_visibility_change` leaves: `'hidden'` is removed once when showing and appended when hiding, otherwise the list is kept; its properties are `VisibilitySpec` and `VisibilityIdempotent` |
| ClassList.VisibilitySpec | nicegui/element.py:32-38 | `visible=False` leaves exactly one `'hidden'`, `visible=True` leaves none, the other classes keep their order, no duplicate appears, and `update` runs iff the list changed |
| ClassList.VisibilityIdempotent | nicegui/element.py:32-38 | repeating a visibility change changes nothing and sends no update |
| ClassList.RemoveFirstSpec | nicegui/element.py:34 | `list.remove('hidden')` removes exactly one occurrence and keeps the other classes in order |
| ElementTree.Element.AddSlot | nicegui/element.py:40-42 | the returned slot is fresh, empty, owned by this element and stored under `name`; an existing name keeps its place in the slot order, a new name goes last |
| ElementTree.Element.Enter | nicegui/element.py:44-46 | the default slot is pushed on the slot stack |
| ElementTree.Element.Exit | nicegui/element.py:48-49 | the top of the stack is popped; an empty stack raises `IndexError` and changes nothing |
| ElementTree.ScopedChild | nicegui/element.py:14-49 | an element created inside `with parent:` becomes the last child of the parent's default slot, and the stack is restored afterwards |
| ElementTree.Element.ToDict | nicegui/element.py:51-64 | the loop over the listeners builds exactly `Events.EventArgs` of them; the dictionary holds the element's fields and the child ids of each slot in slot order |
| ElementTree.Element.ChildLists | nicegui/element.py:63 | one list per slot name, in order, holding that slot's child ids |
| ElementTree.Element.SlotEntriesTree | nicegui/element.py:63 | the `slots` entry of `to_dict` lists, for each slot in order, the same child ids that `collect_ids` walks in the client's tree, and every id it lists is a registered element created after this one |
| Events.EventArgs | nicegui/element.py:52-54 | the `events` entry of `to_dict`: one entry per event type that has a listener, holding the argument names of that type's listeners in registration order; `ToDict` proves the loop builds it, `EventArgsStep`, `ArgsForAppend` and `ArgsForNone` give its properties |
| Events.EventArgsStep | nicegui/element.py:52-54 | one loop step sets `events[type] = events.get(type, []) + args` and leaves every other type alone |
| Events.ArgsForAppend | nicegui/element.py:52-54 | the argument names of a type in two listener lists are those of the first followed by those of the second |
| Events.ArgsForNone | nicegui/element.py:52-54 | a type with no listener has no argument names |
| ElementTree.Element.Classes | nicegui/element.py:72-80 | the new list is `MergeClasses` of the old one under the same arguments, it stays duplicate-free, and an update is sent exactly when the list changed |
| ClassList.MergeClasses | nicegui/element.py:72-76 | the list `classes(...)` computes: the old list (or none, with `replace`) without the words of `remove`, then the words of `add` and `replace`, deduplicated in first-occurrence order; its properties are the `MergeClasses*` lemmas below |
| ClassList.MergeClassesMembers | nicegui/element.py:72-76 | the result has no duplicates and holds a class exactly when it is an old class neither replaced nor removed, or a token of `add` or `replace`: a removed class is gone unless re-added |
| ClassList.MergeClassesKeepsOrder | nicegui/element.py:72-76 | without `replace`, the kept old classes come first in their old order, followed by the new tokens of `add` at their first occurrences |
| ClassList.MergeClassesReplace | nicegui/element.py:72-76 | with `replace`, the old list and `remove` play no part: the result is `add` then `replace`, deduplicated |
| ClassList.MergeClassesPresent | nicegui/element.py:72-77 | adding classes that are all present leaves a duplicate-free list unchanged, so no update is sent |
| ClassList.MergeClassesIdempotent | nicegui/element.py:72-76 | `classes(add=x)` twice gives the same list as once |
| Containers.Dedupe | nicegui/element.py:76 | `list(dict.fromkeys(xs))`: each item kept at its first occurrence; `DedupeSpec` proves it equal to the reference `FirstOccurrences`, duplicate-free and with the same items |
| Containers.DedupeSpec | nicegui/element.py:76 | `list(dict.fromkeys(xs))` equals the reference definition of first occurrences, has no duplicates and has the same elements as `xs` |
| Containers.WithoutNoDup | nicegui/element.py:73 | filtering a duplicate-free list keeps it duplicate-free |
| Containers.DedupePrefix | nicegui/element.py:76 | deduplicating a duplicate-free prefix followed by more items keeps the prefix and appends, deduplicated, the items it does not already hold |
| Containers.DedupeAbsorbs | nicegui/element.py:76 | deduplicating a duplicate-free list followed by items it already holds gives the list back |
| PyStr.WordsOfJoin | nicegui/element.py:73-75 | `' '.join(ws).split()` gives back any list of non-empty words without whitespace |
| PyStr.Words | nicegui/element.py:73-75 | `str.split()` yields non-empty tokens without whitespace |
| Styles.ParseStyle | nicegui/element.py:88-89 | `parse_style`: no text or empty text gives no declarations; otherwise the text is stripped of `;` and spaces, split on `;`, and each part is parsed as a declaration; `ParseDeclsSpec` and `ParseRenderStyle` give its properties |
| Styles.ParseDeclsSpec | nicegui/element.py:89 | the parts parse exactly when every part splits on `:` into exactly two pieces, and the declarations are then those two pieces stripped, in order; otherwise the `ValueError` is raised on the first part that does not split into two, and gives its number of pieces |
| Styles.ParseRenderStyle | nicegui/element.py:88-89 | `parse_style` reads back every list of printable declarations written as `k1:v1;k2:v2` |
| PyStr.JoinSplitOn | nicegui/element.py:89 | joining the pieces of `s.split(sep)` with `sep` gives `s` |
| PyStr.SplitOnJoin | nicegui/element.py:89 | splitting a joined list of separator-free pieces gives the pieces back |
| PyStr.StripNoop | nicegui/element.py:89 | `strip` leaves a string with nothing to strip at its ends unchanged |
| PyStr.TrimTrimmed | nicegui/element.py:89 | `strip()` leaves an already trimmed string unchanged |
| Containers.ToMap | nicegui/element.py:89 | `dict(pairs)`: the pairs entered in order, a later pair overwriting an earlier one with the same key; `ToMapLastWins` and `KeyOrderSpec` give its properties |
| Containers.ToMapLastWins | nicegui/element.py:89 | `dict(pairs)` holds exactly the keys of the pairs, each with the value of the last pair with that key |
| Containers.KeyOrderSpec | nicegui/element.py:91 | iterating `dict(pairs)` visits each of its keys exactly once |
| Styles.DeleteKeysSpec | nicegui/element.py:91-92 | deleting distinct keys one by one removes every key before the first missing one, and raises `KeyError` on that one |
| Styles.DeleteEach | nicegui/element.py:91-92 | the deletion loop ends with the map and the missing key that `DeleteKeys` gives |
| Styles.ApplyStyle | nicegui/element.py:90-97 | the outcome of `style(...)`: the new style map, whether `update` runs and the exception raised, including the aliasing of `_style` when `replace` is absent; `RunStyle` proves the imperative body agrees with it, `ApplyStyleSuccess`, `ApplyStyleMissingKey` and `ApplyStyleUpdates` give its properties |
| Styles.RunStyle | nicegui/element.py:90-97 | the body of `style` ends with the map, the update decision and the exception that `ApplyStyle` gives, error paths included |
| ElementTree.Element.Style | nicegui/element.py:82-98 | the element's new style map and exception are those of `ApplyStyle`, and an update is sent exactly when `ApplyStyle` says so |
| Styles.ApplyStyleSuccess | nicegui/element.py:90-94 | `style` succeeds iff the three strings parse and every removed key is in the working map; the new map is then the working map minus the removed keys, overlaid with `add` and then `replace` |
| Styles.ApplyStyleMissingKey | nicegui/element.py:91-92 | removing a missing key raises `KeyError` on the first such key, sends nothing, and keeps the earlier deletions when there is no `replace` |
| Styles.ApplyStyleUpdates | nicegui/element.py:90-97 | `update` runs exactly when `replace` is given, the call succeeds and the map changed; without `replace` it never runs |
| Props.Lex | nicegui/element.py:110-113 | the modelled `shlex` lexer with `whitespace=' '`: tokens are separated by spaces, a run in single or double quotes joins the token without its quotes, and a quote left open is an error; `LexPlain`, `LexQuoted` and `LexRendered` give its properties |
| Props.ParseProps | nicegui/element.py:107-113 | `parse_props`: no text or empty text gives no props; otherwise each token becomes a key with the string after its first `=`, or a flag set to `True`; `ParseWordSpec` and `ParseRenderProps` give its properties |
| Props.LexPlain | nicegui/element.py:110-113 | in the modelled lexer, characters other than spaces and quotes join the token being read, which is then open |
| Props.LexQuoted | nicegui/element.py:110-113 | in the modelled lexer, a double-quoted run joins the token being read without its quotes, spaces included |
| Props.ParseWordSpec | nicegui/element.py:113 | a token splits at its first `=` into key and string value; a token without `=` is a flag set to `True` |
| Props.ParseRenderProps | nicegui/element.py:107-113 | `parse_props` reads back every list of props written as `k1 k2="v2"`, when the keys are made of `shlex` word characters and the values hold no `"` or `\` |
| Props.LexRendered | nicegui/element.py:110-113 | lexing one such rendered prop reads exactly its token |
| Props.RemoveEach | nicegui/element.py:115-118 | the removal loop deletes exactly the keys of `remove` that are present, and reports whether there was one |
| Containers.Overlay | nicegui/element.py:119-122 | the overlay of a map with some keys' values is defined exactly on the old keys plus those keys |
| Props.SetEach | nicegui/element.py:119-122 | the setting loop leaves the map overlaid with `add`, and reports whether some key was missing or had a different value |
| Props.SetEachStep | nicegui/element.py:119-122 | one loop step sets the key exactly when its value differs from the original, so the change flag tracks the original map |
| Props.ApplyProps | nicegui/element.py:114-124 | the outcome of `props(...)`: the new props map, whether `update` runs and the exception raised; `RunProps` proves the imperative body agrees with it, the `ApplyProps*` lemmas give its properties |
| Props.RunProps | nicegui/element.py:114-124 | the body of `props` ends with the map, the update decision and the exception that `ApplyProps` gives |
| ElementTree.Element.Props | nicegui/element.py:100-125 | the element's new props and exception are those of `ApplyProps`, and an update is sent exactly when `ApplyProps` says so |
| Props.ApplyPropsSuccess | nicegui/element.py:114-122 | `props` fails only on a malformed string, never on an absent key; on success the new map is the old one minus the removed keys, overlaid with `add`, and every other key keeps its value |
| Props.ApplyPropsUpdates | nicegui/element.py:114-124 | errors never update; on success `update` runs iff a present key was removed or `add` changed the map left by the removals, so in particular whenever the map changed |
| Props.ApplyPropsAddError | nicegui/element.py:114-119 | a malformed `add` raises after the deletions of `remove`, which stay |
| Props.ApplyPropsIdempotent | nicegui/element.py:119-124 | repeating the same `props(add=...)` changes nothing and sends nothing |
| ElementTree.Element.On | nicegui/element.py:127-130 | a listener is appended after the earlier ones exactly when a handler is given, and the `events` entry of `to_dict` gains its argument names under its type |
| ElementTree.Element.HandleEvent | nicegui/element.py:132-135 | the handlers invoked are, in order, those of the listeners whose type is `msg['type']`; a message without `'type'` raises `KeyError` as soon as there is a listener |
| Events.Matching | nicegui/element.py:133-135 | the handlers `handle_event` invokes for an event type, in listener order; `MatchingSpec` and `HandleEvent` give its properties |
| Events.MatchingSpec | nicegui/element.py:133-135 | matching distributes over concatenation, and a handler is invoked iff some listener of that type carries it |
| ElementTree.Element.Update | nicegui/element.py:137-149 | with the loop running, exactly one `'update'` message is sent to the client's room, holding `to_dict()` of each element of the owned subtree; without the loop nothing is sent |
| ElementTree.Client.Pending | nicegui/element.py:148-149 | the message `update()` schedules: event `'update'` to the client's room with the `Batch` of the post-order of the element's subtree; `Update` proves the method sends exactly it |
| ElementTree.Client.CollectIds | nicegui/element.py:142-147 | `collect_ids(id)` appends `PostOrder` of the forest at `id` to the ids collected so far |
| ElementTree.Client.CollectSlots | nicegui/element.py:143-145 | the loop over the slots appends the post-order of each slot's children, slot by slot |
| ElementTree.Client.CollectChildren | nicegui/element.py:144-145 | the loop over one slot's children appends each child's post-order in child order |
| ElementTree.Client.Batch | nicegui/element.py:148 | the `elements` payload has exactly the collected ids as keys, and each record sits under its own element's id and carries that element's tag |
| Subtree.PostOrder | nicegui/element.py:142-147 | the collected ids end with the element itself and are registered ids no smaller than it |
| Subtree.PostOrderMembers | nicegui/element.py:142-147 | an id is collected exactly when it is in the element's subtree |
| Subtree.InSubtreeAbove | nicegui/element.py:142-147 | every id in an element's subtree is registered and no smaller than the element's id |
| Subtree.PostOrderDescendantsFirst | nicegui/element.py:142-147 | every element is collected after all of its descendants |
| Subtree.PostOrderNoDup | nicegui/element.py:142-147 | in a forest where each child has one parent and is listed once, the post-order of any element repeats no id |
| Subtree.SubtreesNested | nicegui/element.py:142-147 | in such a forest two subtrees that share an element are nested, one inside the other |
| Subtree.SiblingsDisjoint | nicegui/element.py:143-145 | in such a forest the subtrees of two different children of one element share no element |
| ElementTree.Client.CollectsEachOnce | nicegui/element.py:142-147 | `collect_ids` on the client's registry lists every element of the subtree exactly once |
| Subtree.PostOrderAllAppend | nicegui/element.py:143-145 | collecting two runs of children one after the other collects each run's subtrees in that order |
| Subtree.PostOrderSlotsAll | nicegui/element.py:143-146 | collecting all slots and then the element itself is the post-order of the element |
| Subtree.PostOrderSlotsStep | nicegui/element.py:143-145 | each further slot appends the post-order of its children |
| Subtree.PostOrderLeaf | nicegui/element.py:142-147 | an element without children collects only itself |

## Left out

- `globals.client_stack[-1]` is a constructor parameter (`client`). The
  `IndexError` of an empty client stack is not modelled.
- The `Client` class (client.py) is not part of this model. Only the fields
  the element touches are modelled: id, `next_element_id`, `elements` and
  `slot_stack`. `Client`'s own constructor starts the counter at 0 here.
- `globals.loop` is the flag `Runtime.loopRunning`. `sio.emit` wrapped in
  `create_task` is not modelled: `Update` returns the message that would be
  scheduled, and the room is the client id as an integer, not `str(id)`.
- ElementTree.Element.Update: returns a snapshot of the payload taken when
  `update()` runs. In the source, `to_dict` puts the element's live
  `_classes`, `_style` and `_props` objects into the payload, and the send
  happens later in a task. So in-place edits made before the send still show
  up in a message already scheduled: the `'hidden'` toggle, `style` without
  `replace`, and `props` deletions and sets. The model does not capture that
  sharing. In particular, a `style` call without `replace` sends no update of
  its own, yet in the source its edits can still reach the browser inside a
  pending message.
- Handlers are opaque tokens, and running them is not modelled:
  `HandleEvent` returns the handlers it would invoke, in order.
- `BindVisibilityMixin` (binding of `visible`) is not modelled. `visible` is a
  `bool`, although the source annotates the parameter as `str`.
- Props.Lex: only the subset of `shlex` needed here is modelled. Only `' '`
  separates tokens, as `whitespace = ' '` sets. `"` and `'` quote in posix
  style, and an unclosed quote raises. Escapes, comments and the splitting
  of punctuation that is not a word character are not modelled.
- Slot children are held as element ids, not as element objects.
- The key order of the dictionaries in the payload is not modelled (maps are
  unordered). The slot order of an element is kept as a separate list of
  names.
- The style and props dictionaries are values that the methods reassign.
  `Styles.RunStyle` and `Props.RunProps` run the loops on a copy, and the
  element stores the outcome in one step. The effect is the same, including
  which edits survive an exception.
- The methods' `return self` (chaining) is not modelled.
- `Slot` (slot.py) is reduced to its owner id, its name and its children.
