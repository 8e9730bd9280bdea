# Linux Show Player: message dispatch, controller maps, cue trees and the cue store

This project models the core of Linux Show Player that routes incoming control messages to cues, and the core that keeps cues in order:

- **Message dispatch.**
  - `MessageDispatcher` and `DispatchDict` store handlers under a message id and a value mask, in which `None` is a wildcard cell.
  - Each has a lookup that takes exact cells before the wildcard, a size query, and removal or cleanup of a mask.
  - Each has `filter`, which sets aside the arguments the mask fixes.
- **MIDI codecs.**
  - The controller plugin's codec turns a message type and its integer attributes into a space-separated string and back, with `-1` as a trailing wildcard.
  - The global controller module's codec does the same and also builds the wildcard key of a long key.
- **The controller.**
  - `Controller` keeps `__map`, from a key to the set of targets registered for it.
  - It keeps `__actions_map`, from a (key, target) pair to the target's action.
  - `ControllerCommon` has the per-layout table of session callbacks and a registry of protocols keyed by lower-cased name.
- **Trees.**
  - `TreeNode` is a node with ordered children and a parent link.
  - The list layout's `Node` is a plain node with ordered children and a parent link.
  - The cue package's `CueNode` and the list layout's `CueNode` carry a cue and keep each child cue's `index` equal to the child's position.
- **The cue store.** `CueModel` is keyed by cue id and refuses duplicate ids.

## Modelling notes

- **Modules.** There is one module per source file. Python building blocks are shared modules:
  - `Wrappers`: `Option`, `Result`, `Outcome` and the Python exception kinds.
  - `Text`: `str.split`, `' '.join`, `str(int)` and `int(str)`.
  - `Lists`: list insertion, `pop(i)` with negative indices, `list.index`.
  - `Mask`: wildcard cells and `filter`.
  - `Cues`: the three fields of a cue that the trees and the store touch. It stands in for `lisp/cues/cue.py`, which is not part of this model, and makes no claim about it.
- **Classes and methods.**
  - Each object the source updates in place is a `class`. Each operation that changes it is a `method` whose `ensures` gives the whole new state.
  - That new state is given either directly or through a specification function. The properties are lemmas about those functions.
  - The loops of the source stay loops: `__item`, `__size`, `filter`, `get_handler`, `size`, `delete_from_map`, the nested loops of `cue_changed`, `perform_action`, `clear` and `_sync_cues_indices`.
- **Nested dictionaries are values.**
  - `MessageDispatcher`'s nested dict is modelled as a value `map<Cell, Node>`, where a node is a sub-dict or a handler set. `DispatchDict`'s tree of nodes is a value `DNode(handlers, children)`.
  - A parent link is the path from the root.
  - The methods of both classes update their root through these values.
- **Raw roots.** `MessageDispatcher` can hold a raw handler as an id's root. A mask then makes `add` and `item` raise, and this is modelled as an error result, not a precondition:
  - `add` with two or more cells calls `items()` on the handler (AttributeError);
  - `add` with one cell, and `item` with any mask, test `in` on the handler (TypeError).
- **Weak references.**
  - A handler that the garbage collector drops leaves every `WeakSet`. The model makes this an explicit `Collect(h)`.
  - `DispatchDict`'s `finalize` callbacks then run `__cleanup_mask`, in an order the model takes as a parameter.
- **Controller targets.**
  - A cue is known to `Controller` by its id.
  - `cue_changed` raises ValueError at the first action `CueAction` refuses. By then that pair's key has gained the cue but no action, so the map invariant (every mapped pair has an action) can be broken, and `perform_action` on that key raises KeyError. The methods therefore promise the invariant only when it held before and, for `cue_changed`, only when no action was refused.
  - The session controller is a second kind of target.
  - A cue action or a session action is a value `Action`.
- **MIDI string parsing.**
  - `int(str)` accepts an optional sign and ASCII digits.
  - `str.split()` splits on ASCII whitespace, including `\x1c`-`\x1f`.
- **Ancestor chains.** `index_path` follows parent links up to the root. `IndexPath` takes that chain of ancestors as an argument.

## Model

| member | source | states |
|---|---|---|
| Mask.Concrete | lisp/core/message_dispatcher.py:235-237 | the number of non-None cells; zero exactly when every cell is a wildcard |
| Mask.Filtered | lisp/core/message_dispatcher.py:233-239 | `filter` as written: IndexError iff the concrete cells outnumber the arguments; otherwise the last `len(args) - k` arguments, `k` the concrete cells |
| Mask.Filter | lisp/plugins/controller/dispatch_dict.py:189-194 | the pop-front loop computes exactly `Filtered` |
| Mask.FilterDropsFirstArguments | lisp/core/message_dispatcher.py:233-239 | for mask (0, None, 1) and arguments (0, 42, 1), `filter` keeps [1] where the positional reading keeps [42] |
| Mask.Positional | lisp/plugins/controller/dispatch_dict.py:177-194 | the arguments under wildcard cells plus those beyond the mask; as many as the wildcards leave |
| Mask.TrailingFilterIsPositional | lisp/core/message_dispatcher.py:233-239 | when every concrete cell precedes every wildcard, `filter` is the positional filter |
| MessageDispatch.Walk | lisp/core/message_dispatcher.py:130-143 | the tree walk returns a value iff it returns a mask; the mask extends the prefix by one cell or more and no further than the values; a value is a handler set |
| MessageDispatch.MessageDispatcher.constructor | lisp/core/message_dispatcher.py:71-72 | no ids |
| MessageDispatch.MessageDispatcher.Add | lisp/core/message_dispatcher.py:109-127 | `add` changes the keys and returns the result exactly as `AddTo` (with `__set_mask`) does |
| MessageDispatch.MessageDispatcher.Item | lisp/core/message_dispatcher.py:145-166 | the `__item` loop returns `ItemOf`: an empty mask gives a raw root or (None, ()), an unknown id (None, mask), otherwise the walk |
| MessageDispatch.MessageDispatcher.Size | lisp/core/message_dispatcher.py:182-201 | the `__size` loop returns `SizeOf`: 0 for an unknown id, 1 or the entry count for an empty mask, otherwise the exact-key walk |
| MessageDispatch.MessageDispatcher.Remove | lisp/core/message_dispatcher.py:214-228 | `remove` returns and deletes exactly as `RemoveFrom` (with `__remove_mask`) does |
| MessageDispatch.MessageDispatcher.Clear | lisp/core/message_dispatcher.py:230-231 | no ids are left |
| MessageDispatch.MessageDispatcher.Collect | lisp/core/message_dispatcher.py:69 | a collected handler leaves every handler set of the `WeakSet` leaves |
| MessageDispatch.SetMaskFresh | lisp/core/message_dispatcher.py:90-105 | any non-empty mask can be stored in an empty level |
| MessageDispatch.SetMaskFailUnchanged | lisp/core/message_dispatcher.py:85-100 | a refused `__set_mask` leaves the level unchanged |
| MessageDispatch.SetMaskReaches | lisp/core/message_dispatcher.py:101-105 | after a successful `__set_mask` the mask's path ends in a leaf holding the old handlers plus `cmd` |
| MessageDispatch.SetMaskKeepsOthers | lisp/core/message_dispatcher.py:83-107 | every other leaf path keeps its handlers |
| MessageDispatch.SetMaskIdempotent | lisp/core/message_dispatcher.py:101-103 | storing the same handler under the same mask again succeeds and changes nothing |
| MessageDispatch.SetMaskBlockedByLeaf | lisp/core/message_dispatcher.py:85-89 | a longer mask cannot pass a level that holds any leaf, under any key; the call is refused and nothing changes |
| MessageDispatch.SetMaskBlockedByDict | lisp/core/message_dispatcher.py:97-100 | a final cell whose key holds a dict is refused and nothing changes |
| MessageDispatch.WalkExact | lisp/core/message_dispatcher.py:134-139 | following exact cells to a leaf returns that leaf and the exact prefix |
| MessageDispatch.WalkSound | lisp/core/message_dispatcher.py:130-143 | a returned mask leads to a leaf with the returned handlers; each cell is the value's or a wildcard taken only where the value's key is missing |
| MessageDispatch.ItemAfterAdd | lisp/core/message_dispatcher.py:123-139 | after a successful `add(id, h, m)`, `item(id, m)` returns a handler set holding `h`, or the raw handler, together with `m` |
| MessageDispatch.SizeAtLeaf | lisp/core/message_dispatcher.py:172-176 | a walk that reaches a leaf returns the leaf's handler count |
| MessageDispatch.SizeAtDict | lisp/core/message_dispatcher.py:172-180 | a mask ending at a dict returns its number of entries |
| MessageDispatch.SizeOffPath | lisp/core/message_dispatcher.py:172-178 | a mask that leaves the tree before any leaf returns 0 |
| MessageDispatch.SizeAfterAdd | lisp/core/message_dispatcher.py:192-200 | after a successful `add` with a mask, `size` is the size of a handler set holding `h` |
| MessageDispatch.AddIdempotent | lisp/core/message_dispatcher.py:101-103 | repeating a successful `add` succeeds and leaves the keys as they were |
| MessageDispatch.AddFailUnchanged | lisp/core/message_dispatcher.py:121-127 | a failed `add` changes nothing but the empty entry it creates for a new id |
| MessageDispatch.RemoveFound | lisp/core/message_dispatcher.py:203-212 | removing a present mask returns its node and pops only the last key, leaving the parent dict otherwise unchanged; every path that neither leads to nor passes through the mask reaches what it reached before |
| MessageDispatch.RemoveKeepsOthers | lisp/core/message_dispatcher.py:203-212 | a path off the removed branch, neither a prefix nor an extension of the mask, reaches the same node after the removal |
| MessageDispatch.RemoveMissing | lisp/core/message_dispatcher.py:203-212 | removing an absent mask returns nothing and changes nothing |
| MessageDispatch.EvictAt | lisp/core/message_dispatcher.py:69 | eviction keeps every path and kind of node; leaves lose exactly the collected handler |
| Dispatch.Construct | lisp/plugins/controller/dispatch_dict.py:40-52 | TypeError iff the parent is not a DispatchDict or the value is not a Handler; otherwise a childless node holding the handler, if one is given |
| Dispatch.Child | lisp/plugins/controller/dispatch_dict.py:65-80 | an existing child comes back untouched; otherwise a new childless child, holding the given handler if any, is attached, unless its value is refused |
| Dispatch.CellKeys | lisp/plugins/controller/dispatch_dict.py:101-103 | the path of a mask is its cells in order, None kept as the wildcard key |
| Dispatch.SizeOf | lisp/plugins/controller/dispatch_dict.py:143-149 | -1 iff the exact path is missing, otherwise the handler count at the path's node |
| Dispatch.CleanupAt | lisp/plugins/controller/dispatch_dict.py:161-175 | False iff the path is missing |
| Dispatch.FinalizersOf | lisp/plugins/controller/dispatch_dict.py:105 | the finalizers a collected handler triggers are among those registered for it |
| Dispatch.FinalizersNotOf | lisp/plugins/controller/dispatch_dict.py:105 | the finalizers left behind belong to other handlers |
| Dispatch.DispatchDict.constructor | lisp/plugins/controller/dispatch_dict.py:40-52 | an empty root and no finalizers |
| Dispatch.DispatchDict.Add | lisp/plugins/controller/dispatch_dict.py:85-106 | TypeError and no change for a non-Handler; otherwise the handler is added along the whole path, and a finalizer is registered iff the handler was not already there |
| Dispatch.DispatchDict.GetHandler | lisp/plugins/controller/dispatch_dict.py:108-132 | the path loop yields exactly `HandlersOf`, whose meaning `GetHandlerSound` and `GetHandlerComplete` state |
| Dispatch.DispatchDict.Size | lisp/plugins/controller/dispatch_dict.py:134-149 | the loop returns exactly `SizeOf` |
| Dispatch.DispatchDict.CleanupMask | lisp/plugins/controller/dispatch_dict.py:151-175 | returns and prunes exactly as `CleanupAt`; finalizers are unchanged |
| Dispatch.DispatchDict.Collect | lisp/plugins/controller/dispatch_dict.py:82-105 | collecting a handler evicts it, then runs its finalizers in the given order; those finalizers are used up |
| Dispatch.AddAtFind | lisp/plugins/controller/dispatch_dict.py:101-106 | after `add`, the path's node holds its old handlers plus `h` and keeps its children |
| Dispatch.AddAtCreatesPath | lisp/plugins/controller/dispatch_dict.py:101-103 | `add` creates every node along the path |
| Dispatch.AddAtOthers | lisp/plugins/controller/dispatch_dict.py:101-106 | every other node keeps its handlers, and no node disappears |
| Dispatch.FreshFind | lisp/plugins/controller/dispatch_dict.py:78-80 | a freshly created child has no descendants |
| Dispatch.AddAtIdempotent | lisp/plugins/controller/dispatch_dict.py:101-106 | adding the same handler twice is adding it once |
| Dispatch.SizeAfterAdd | lisp/plugins/controller/dispatch_dict.py:134-149 | after `add`, `size` is the old handler set's size plus `h` and at least 1 |
| Dispatch.AddRegistersOnce | lisp/plugins/controller/dispatch_dict.py:104-105 | after `add` the handler is in its node, so a repeated `add` registers no second finalizer |
| Dispatch.HitsShape | lisp/plugins/controller/dispatch_dict.py:118-132 | every yielded handler set is non-empty; the masks strictly grow and are no longer than the arguments |
| Dispatch.HitsExact | lisp/plugins/controller/dispatch_dict.py:118-132 | when the exact path holds handlers, the last yield is that node's handlers with the whole argument list |
| Dispatch.HitsSound | lisp/plugins/controller/dispatch_dict.py:118-132 | every yield below a node extends the path so far by a chosen path (at each step the argument's own key when present, else None) and carries that node's handlers |
| Dispatch.HitsComplete | lisp/plugins/controller/dispatch_dict.py:118-132 | every non-empty chosen path whose node holds handlers is yielded, with those handlers |
| Dispatch.GetHandlerSound | lisp/plugins/controller/dispatch_dict.py:108-132 | each yield of `get_handler(id, *args)` is a non-empty handler set, the one at the node reached from the first-level key (the id when present, else None) along a chosen path for the arguments, with that path as its mask |
| Dispatch.GetHandlerComplete | lisp/plugins/controller/dispatch_dict.py:108-132 | conversely, every chosen path, the empty one included, whose node holds handlers is yielded together with those handlers |
| Dispatch.GetHandlerAfterAdd | lisp/plugins/controller/dispatch_dict.py:85-132 | after `add(id, h, mask)`, `get_handler(id, *mask)` ends with a set holding `h` and the mask itself |
| Dispatch.PruneKeeps | lisp/plugins/controller/dispatch_dict.py:170-175 | pruning removes the final node and keeps every other surviving node's handlers |
| Dispatch.PruneParent | lisp/plugins/controller/dispatch_dict.py:170-175 | the parent loses exactly that one child and keeps its handlers |
| Dispatch.EvictFind | lisp/plugins/controller/dispatch_dict.py:47 | eviction keeps every node and removes exactly the collected handler from each |
| Dispatch.CollectForgets | lisp/plugins/controller/dispatch_dict.py:82-83 | after collection and any cleanups, no node holds the collected handler |
| ControllerMidi.IdFromMessage | lisp/plugins/controller/protocols/midi.py:62-67 | None iff there are no arguments, otherwise the first message's type |
| ControllerMidi.NonNegative | lisp/plugins/controller/protocols/midi.py:82 | the values above -1, each as often as in the input and none other; order is kept, as `NonNegativeAppend` states |
| ControllerMidi.NonNegativeAppend | lisp/plugins/controller/protocols/midi.py:82 | filtering a concatenation is concatenating the filtered parts, so the kept values stay in input order |
| ControllerMidi.StrFromValues | lisp/plugins/controller/protocols/midi.py:79-88 | '' for a non-negative value after a -1; without -1, the space-join of the type and the values |
| ControllerMidi.ValuesFromStr | lisp/plugins/controller/protocols/midi.py:91-96 | `()` iff the string is empty; otherwise the first token and, for each later token, its `int` value; an error iff the string is blank (IndexError) or some later token is not an int (ValueError) |
| ControllerMidi.ParseId | lisp/plugins/controller/protocols/midi.py:99-104 | '' for ''; IndexError iff the string is non-empty and blank; otherwise the first token, whitespace-free |
| ControllerMidi.ParseMask | lisp/plugins/controller/protocols/midi.py:107-112 | () for '' or a blank string; otherwise the `int` value of each token after the first; ValueError iff one of those is not an int |
| ControllerMidi.ParseIdMaskAgree | lisp/plugins/controller/protocols/midi.py:91-112 | for a string that decodes, `parse_id` and `parse_mask` are the two parts of `values_from_str` |
| ControllerMidi.RoundTrip | lisp/plugins/controller/protocols/midi.py:88-94 | without -1, decoding the encoding of a whitespace-free type and values gives them back |
| ControllerMidi.RoundTripTrailingWildcards | lisp/plugins/controller/protocols/midi.py:81-94 | with trailing wildcards, decoding gives back the type and the non-negative values |
| ControllerMidi.MisplacedWildcard | lisp/plugins/controller/protocols/midi.py:83-86 | a non-negative value after a -1 encodes to '', which decodes to () |
| GlobalMidi.KeyFromValues | lisp/modules/global_controller/protocols/midi.py:60-61 | the key of a non-empty type is non-empty |
| GlobalMidi.ValuesFromKey | lisp/modules/global_controller/protocols/midi.py:64-69 | `()` iff the key is empty; otherwise the first token and, for each later token, its `int` value; an error iff the key is blank (IndexError) or some later token is not an int (ValueError) |
| GlobalMidi.WildcardKeys | lisp/modules/global_controller/protocols/midi.py:73-88 | no wildcard key for three tokens or fewer, and never more than one |
| GlobalMidi.RoundTrip | lisp/modules/global_controller/protocols/midi.py:60-67 | decoding the key of a whitespace-free type and ints gives them back |
| GlobalMidi.WildcardKeyShape | lisp/modules/global_controller/protocols/midi.py:82-86 | a longer key not led by the sysex object has one wildcard key: the same token count, the same first tokens, and '-1' last |
| GlobalMidi.WildcardOfEncodedKey | lisp/modules/global_controller/protocols/midi.py:60-86 | the wildcard key of an encoded key is the key of the values with the last one set to -1 |
| Text.Split | lisp/plugins/controller/protocols/midi.py:93 | every token of `str.split()` is non-empty and whitespace-free |
| Text.IntToString | lisp/plugins/controller/protocols/midi.py:88 | `str(i)` is a single token |
| Text.ParseInts | lisp/plugins/controller/protocols/midi.py:94 | one int per token, each that token's value; an error, ValueError, iff some token is not an int |
| Text.ParseIntsTail | lisp/plugins/controller/protocols/midi.py:94 | the ints of the tokens after the first: ValueError iff one of them is not an int, otherwise each one's value in order |
| Text.ParseIntToString | lisp/plugins/controller/protocols/midi.py:88-94 | `int(str(i)) == i` |
| Text.SplitJoin | lisp/modules/global_controller/protocols/midi.py:61-66 | splitting the space-join of tokens gives the tokens back |
| ControllerCommon.Parameter | lisp/plugins/controller/controller_common.py:85-99 | only TypeError; for each layout it succeeds iff the action is in that layout's table, with the table's parameter types; any other layout fails |
| ControllerCommon.ListParameters | lisp/plugins/controller/controller_common.py:52-71 | in the list layout, every action but PAGE succeeds; the `*_NUM` actions take (int,) and the rest take () |
| ControllerCommon.CartParameters | lisp/plugins/controller/controller_common.py:73-75 | in the cart layout, only PAGE succeeds and it takes (int,) |
| ControllerCommon.Lower | lisp/plugins/controller/controller_common.py:112 | `lower()` maps each character, keeping the length |
| ControllerCommon.Lookup | lisp/plugins/controller/controller_common.py:114-117 | KeyError iff the lower-cased name is not registered, otherwise what is stored under it |
| ControllerCommon.LookupPopulated | lisp/plugins/controller/controller_common.py:111-117 | after `populate_protocol(n, p)` a name equal to `n` once lower-cased gets `p`; every other name gets what it got before |
| ControllerCommon.LowerIdempotent | lisp/plugins/controller/controller_common.py:112 | lower-casing twice is lower-casing once |
| ControllerCommon.ProtocolRegistry.constructor | lisp/plugins/controller/controller_common.py:107-109 | no protocols |
| ControllerCommon.ProtocolRegistry.PopulateProtocol | lisp/plugins/controller/controller_common.py:111-112 | stores the protocol under the lower-cased name |
| ControllerCommon.ProtocolRegistry.GetProtocol | lisp/plugins/controller/controller_common.py:114-117 | returns exactly `Lookup` |
| ControllerMaps.DeleteLoop | lisp/plugins/controller/controller.py:157-159 | the loop over every key discards the target and pops its (key, target) actions |
| ControllerMaps.RegisterOne | lisp/plugins/controller/controller.py:150-154 | one registration: the key's set gains the target and the pair gets the action, as `Register` says |
| ControllerMaps.EnlistOne | lisp/plugins/controller/controller.py:150-153 | the key's set, created when missing, gains the target, as `Enlist` says |
| ControllerMaps.RegisterLoop | lisp/plugins/controller/controller.py:148-154 | the nested loops register the listed pairs of the loaded protocols in order, as `RegisterAll` does, and stop at the first action `CueAction` refuses, after that pair's key has gained the target |
| ControllerMaps.RegisterPairs | lisp/plugins/controller/controller.py:149-154 | the inner loop continues `RegisterAll` over one protocol's pairs and stops at the first refused action |
| ControllerMaps.Controller.constructor | lisp/plugins/controller/controller.py:114-116 | both maps empty, invariant established |
| ControllerMaps.Controller.Reset | lisp/plugins/controller/controller.py:114-116 | both maps empty, invariant re-established |
| ControllerMaps.Controller.DeleteFromMap | lisp/plugins/controller/controller.py:156-159 | the target leaves every set and its actions for mapped keys are popped; the map invariant is kept |
| ControllerMaps.Controller.SessionActionChanged | lisp/plugins/controller/controller.py:123-130 | the session controller is deleted, then registered under the key with the action; the map invariant is kept |
| ControllerMaps.Controller.CueChanged | lisp/plugins/controller/controller.py:144-154 | nothing changes unless the property is 'controller'; then the cue is deleted and re-registered as `RegisterAll` says; ValueError iff an action is refused, the maps left as far as the loops got; the invariant is kept when it passes |
| ControllerMaps.Controller.PerformAction | lisp/plugins/controller/controller.py:161-163 | KeyError iff some target under the key has no recorded action, after some of the calls; otherwise exactly the calls of each mapped target with its action; never KeyError while the invariant holds |
| ControllerMaps.DeleteForgets | lisp/plugins/controller/controller.py:156-159 | after deletion the target is under no key and has no action; other targets keep their entries and actions; the map invariant holds |
| ControllerMaps.RegisterAllOk | lisp/plugins/controller/controller.py:154 | the registrations all go through iff `CueAction` accepts every listed action |
| ControllerMaps.RegisterAllConsistent | lisp/plugins/controller/controller.py:150-154 | registering keeps every mapped (key, target) in the action map |
| ControllerMaps.RegisterAllSpec | lisp/plugins/controller/controller.py:148-154 | when all go through, the target is under a key iff it was or the key is listed, it has an action for a key iff it had or the key is listed, and a listed key's action is the last one listed; other targets are untouched either way |
| ControllerMaps.RegisterAllFirstRefused | lisp/plugins/controller/controller.py:150-154 | at the first refused action the target has joined that pair's key, the actions are those before it, and the later pairs do nothing |
| ControllerMaps.CueChangedSpec | lisp/plugins/controller/controller.py:146-154 | `cue_changed(c, 'controller', v)` goes through iff every listed action is accepted; then `c` is under exactly the listed keys and the invariant holds; other targets keep their keys and actions either way |
| ControllerMaps.CueChangedHalfRegistered | lisp/plugins/controller/controller.py:150-154 | when the first refused action is under a key no earlier pair listed, `c` is left in that key's set with no action: the invariant is broken and, by `PerformAction`'s contract, `perform_action` on that key raises KeyError |
| ControllerMaps.SessionActionSpec | lisp/plugins/controller/controller.py:124-130 | the session controller ends up under exactly `key`, with the action; other targets keep their keys; the invariant holds |
| ControllerMaps.PerformUnmapped | lisp/plugins/controller/controller.py:162 | an unmapped key calls nothing |
| ControllerMaps.PerformRegistered | lisp/plugins/controller/controller.py:162-163 | a (target, action) call happens iff the target is under the key and that is its action |
| Lists.Inserted | lisp/core/tree_node.py:84 | `list.insert` adds one element at the position and keeps the others in order around it |
| Lists.RemovedAt | lisp/core/tree_node.py:96 | `pop(j)` drops one element and keeps the others in order |
| Lists.IndexOf | lisp/core/tree_node.py:62 | `list.index` succeeds iff the element is present, giving its first position; otherwise ValueError |
| Lists.RemoveInserted | lisp/core/tree_node.py:84-96 | popping the inserted position gives the old list back |
| Lists.IndexOfInserted | lisp/core/tree_node.py:62-84 | a new child is found exactly where it was inserted |
| Lists.SyncedToEnd | lisp/cues/cue_node.py:90-95 | a full resync from `start >= -len` gives every position from `start` on its own index and leaves the earlier ones |
| Trees.TreeNode.constructor | lisp/core/tree_node.py:28-35 | no children; with a parent, attached as its last child |
| Trees.TreeNode.SetParent | lisp/core/tree_node.py:49-55 | the parent link is the argument; the children are unchanged |
| Trees.TreeNode.Row | lisp/core/tree_node.py:57-65 | -1 without a parent; otherwise a result iff the node is among its parent's children, giving its first position; else ValueError |
| Trees.TreeNode.AddChild | lisp/core/tree_node.py:67-73 | the child is appended and its parent is this node |
| Trees.TreeNode.InsertChild | lisp/core/tree_node.py:75-87 | the child sits at the clamped index with the others in order, its parent is this node, and its row is that index |
| Trees.TreeNode.Remove | lisp/core/tree_node.py:89-97 | iff `abs(index) < len`, exactly that child is popped and loses its parent; otherwise nothing changes |
| Trees.TreeNode.RemoveChild | lisp/core/tree_node.py:99-106 | ValueError and no change if not a child; otherwise its first occurrence is removed and it loses its parent |
| Trees.TreeNode.Clear | lisp/core/tree_node.py:108-111 | `clear` as written: the first child stays and, unless it is listed again later, keeps its parent; the others lose their parent; no child's children change; this node keeps its parent unless it is among the removed |
| Trees.TreeNode.RemoveExisting | lisp/core/tree_node.py:89-97 | with the guard `-len <= index < len`, every existing child can be removed |
| Trees.TreeNode.ClearAll | lisp/core/tree_node.py:108-111 | no child is left and every old child has lost its parent; no child's children change; this node keeps its parent unless it was its own child |
| Trees.TreeNode.IndexPath | lisp/core/tree_node.py:113-123 | a path iff every node of the chain is among its parent's children; one row per ancestor, root first, each the position of the next node in the chain; otherwise ValueError |
| Trees.AncestryLinks | lisp/core/tree_node.py:118-121 | the second node of a chain is the first one's parent |
| CueNodes.CueNode.constructor | lisp/cues/cue_node.py:30-33 | the cue, no children, no parent |
| CueNodes.CueNode.Cues | lisp/cues/cue_node.py:42-45 | the children's cues in child order |
| CueNodes.CueNode.SetParent | lisp/cues/cue_node.py:50-61 | TypeError for anything but a cue node, None included; otherwise the parent link and `cue.parent = parent.cue.id` |
| CueNodes.CueNode.SyncCuesIndices | lisp/cues/cue_node.py:82-95 | IndexError iff the range is non-empty and starts below `-len`; otherwise each distinct cue gets the last index written to its position; cue parents are unchanged |
| CueNodes.CueNode.InsertChild | lisp/cues/cue_node.py:63-76 | TypeError and no change for a non-CueNode, every child cue keeping its index and parent; otherwise the clamped insertion, the parent links, the other cues' parents unchanged, and, for `0 <= i <= len`, every child from `i` on holds its position |
| CueNodes.CueNode.RemoveChild | lisp/cues/cue_node.py:78-80 | `remove_child` as written always raises ValueError |
| ListLayoutNodes.Node.constructor | lisp/layouts/list_layout/node.py:28-35 | no children; with a parent, attached as its last child |
| ListLayoutNodes.Node.SetParent | lisp/layouts/list_layout/node.py:49-53 | the parent link is the argument |
| ListLayoutNodes.Node.Row | lisp/layouts/list_layout/node.py:55-59 | -1 for the root; otherwise the node's first position in its parent, or ValueError |
| ListLayoutNodes.Node.ChildIndex | lisp/layouts/list_layout/node.py:102-103 | the first position of the child, or ValueError iff it is not a child |
| ListLayoutNodes.Node.AddChild | lisp/layouts/list_layout/node.py:61-67 | the child is appended and its parent is this node |
| ListLayoutNodes.Node.InsertChild | lisp/layouts/list_layout/node.py:69-81 | the child sits at the clamped index with the others in order, its parent is this node, and `child_index` finds it there |
| ListLayoutNodes.Node.RemoveChild | lisp/layouts/list_layout/node.py:83-96 | True iff `abs(index) < len`, with exactly that child popped and parentless; False and no change otherwise |
| ListLayoutNodes.Node.Clear | lisp/layouts/list_layout/node.py:98-100 | `clear` as written: the first child stays and, unless it is listed again later, keeps its parent; the others lose their parent; no child's children change; this node keeps its parent unless it is among the removed |
| ListLayoutNodes.Node.RemoveExistingChild | lisp/layouts/list_layout/node.py:83-96 | with the guard `-len <= index < len`, every existing child can be removed |
| ListLayoutNodes.Node.ClearAll | lisp/layouts/list_layout/node.py:98-100 | no child is left and every old child has lost its parent; no child's children change; this node keeps its parent unless it was its own child |
| ListLayoutNodes.CueNode.constructor | lisp/layouts/list_layout/node.py:135-138 | the cue, no children, no parent |
| ListLayoutNodes.CueNode.Cues | lisp/layouts/list_layout/node.py:147-150 | the children's cues in child order |
| ListLayoutNodes.CueNode.SetParent | lisp/layouts/list_layout/node.py:155-161 | a cue node gives `cue.parent = parent.cue.id`, None gives None, anything else TypeError and no change |
| ListLayoutNodes.CueNode.SyncCuesIndices | lisp/layouts/list_layout/node.py:175-189 | IndexError iff the range is non-empty and starts below `-len`; otherwise each distinct cue gets the last index written to its position; cue parents are unchanged |
| ListLayoutNodes.CueNode.InsertChild | lisp/layouts/list_layout/node.py:163-169 | TypeError and no change for a non-CueNode, every child cue keeping its index and parent; otherwise the clamped insertion, the parent links, the other cues' parents unchanged, and, for `0 <= i <= len`, every child from `i` on holds its position |
| ListLayoutNodes.CueNode.RemoveChild | lisp/layouts/list_layout/node.py:171-173 | iff `abs(index) < len` the child is popped and loses its parent and its cue's parent, the other cues keep their parents, and the children from `index` on then hold their positions while the earlier ones keep their index; otherwise nothing changes, cue indices and parents included |
| CueModels.AddTo | lisp/cues/cue_model.py:34-38 | ValueError iff the id is taken; otherwise the store gains exactly that id, holding the cue, and grows by one |
| CueModels.PopFrom | lisp/cues/cue_model.py:44-48 | KeyError iff the id is absent; otherwise the stored cue and the store without exactly that id |
| CueModels.CueModel.constructor | lisp/cues/cue_model.py:30-32 | an empty store and no events |
| CueModels.CueModel.Add | lisp/cues/cue_model.py:34-39 | ValueError and no change when the id is taken; otherwise `AddTo`, `item_added`, `get(cue.id)` is the cue and the length grows by one |
| CueModels.CueModel.Pop | lisp/cues/cue_model.py:44-48 | KeyError and no change when absent; otherwise the stored cue, the store without that id, and `item_removed` |
| CueModels.CueModel.Remove | lisp/cues/cue_model.py:41-42 | exactly `pop(cue.id)` |
| CueModels.CueModel.Get | lisp/cues/cue_model.py:50-51 | the stored cue for a present id, the default otherwise |
| CueModels.CueModel.Clear | lisp/cues/cue_model.py:61-63 | an empty store, length 0, and `cleared` |
| CueModels.CueModel.Len | lisp/cues/cue_model.py:74-75 | the number of stored ids |
| CueModels.CueModel.Contains | lisp/cues/cue_model.py:77-78 | a cue is contained iff `get` finds something under its id |
| CueModels.PopAdded | lisp/cues/cue_model.py:34-48 | popping the id just added gives back the cue and the old store |
| CueModels.AddPopped | lisp/cues/cue_model.py:34-48 | adding back a popped cue restores a store that keeps each cue under its own id |

## Left out

- Qt settings pages, views and item models: the OSC codec, `Node.log`, logging, configuration reads and `Signal` wiring. The store's signals are kept only as a ghost log of events.
- The garbage collector: when a handler is collected, and in which order `finalize` callbacks run, are inputs of `Collect`.
- `MessageDispatcher.dict` and `DispatchDict.debug`, `parent`, `__setitem__`: accessors and logging. `__setitem__` calls `add` with the wrong number of arguments.
- ControllerMidi.StrFromValues: always takes a message type. The zero-argument call `str_from_values()` is not modelled; it returns '', the join of nothing (lisp/plugins/controller/protocols/midi.py:87-88).
- `key_from_message` of the global MIDI protocol: it reads the message attribute table, which is not part of this model.
- Device I/O: the MIDI and OSC inputs those protocols open, and the protocol and session controller objects `Controller` calls into. `perform_action` is modelled as the set of calls it makes.
- `CueAction(action)`: the enum (`lisp/cues/cue.py`) is not part of this model. The names it accepts are the controller's `actionNames`, a parameter; an accepted name becomes the action of that name, any other raises ValueError.
- GlobalMidi.WildcardKeys: the guard `spl_msg[0] is not 'sysex'` tests object identity. The model takes the identity's outcome as a parameter that can hold only for a first token reading "sysex", and proves nothing about which way it goes.
- Text.Split and Text.ParseInt: `str.split()` on ASCII whitespace only; `int()` without underscores, surrounding spaces or non-ASCII digits.
- ControllerCommon.Lower: ASCII letters only; Unicode case mapping is not modelled.
- ControllerMaps.Controller: cues are identified by id, so two cue objects with one id are one target.
- Trees.TreeNode.IndexPath: takes the chain of ancestors as an argument. On a cycle of parent links Python recurses until RecursionError.
- CueNodes.CueNode.SyncCuesIndices: says nothing about a cue object held by two children. It does not say which index that cue keeps.
- ListLayoutNodes.CueNode.SyncCuesIndices: the same; it says nothing about a cue shared by two children.
- CueNodes.CueNode.InsertChild: the same restriction on shared cue objects.
- ListLayoutNodes.CueNode.InsertChild: the same restriction on shared cue objects.
- ListLayoutNodes.CueNode.RemoveChild: the same restriction on shared cue objects.
- The cue package's `CueNode` inherits `add_child`, `remove`, `clear`, `row` and `index_path` from `TreeNode`. They are not modelled again. `remove` raises TypeError there whenever it pops a child, because it calls `set_parent(None)`, which that class refuses. `clear` therefore raises TypeError with two or more children; with one child its `remove(-1)` pops nothing and it returns normally.
- The list layout's `CueNode` inherits `clear` and `row` from `Node`: not modelled again.
- ListLayoutNodes.Node.InsertChild, ListLayoutNodes.Node.AddChild, ListLayoutNodes.Node.RemoveChild, ListLayoutNodes.Node.Clear: the children of a plain `Node` are modelled as plain `Node`s, so the call `child.set_parent(...)` is never dispatched to the `CueNode` override. In the list layout the root is a plain `Node` holding `CueNode` children (lisp/layouts/list_layout/cue_list_model.py:34, 126). There `insert_child` inserts the child and then raises TypeError from `CueNode.set_parent`, which refuses a plain `Node` as parent (lisp/layouts/list_layout/node.py:80-81, 156-158). `remove_child` and `clear` on such children also set each removed cue's parent to None (node.py:93, 161). The model states none of this.
- Both `CueNode` classes are modelled only for construction without a parent. With a parent, `super().__init__` calls the parent's `insert_child` before `_cue` is set, which raises AttributeError.
- The cue object itself (`lisp/cues/cue.py`) is not part of this model, beyond its id, index and parent id.
- `CueModel.items`, `keys`, `filter` and `__iter__`: views and iteration over the dict.

## Findings

| source | as written | input that shows it | evidently intended | confidence | as-written member | corrected member |
|---|---|---|---|---|---|---|
| lisp/core/message_dispatcher.py:233-239 | `filter` pops the first argument once per non-None cell, whatever the cell's position | mask (0, None, 1), arguments (0, 42, 1): the result is [1] | the arguments under the None cells, here [42] | not executed | Mask.FilterDropsFirstArguments | Mask.TrailingFilterIsPositional |
| lisp/core/tree_node.py:108-111 | `clear` calls `remove(-1)` once per child, and `remove` accepts only `abs(index) < len` | two children: the second call is `remove(-1)` with one child left, and `abs(-1) < 1` fails | no child is left | not executed | Trees.TreeNode.Clear | Trees.TreeNode.ClearAll |
| lisp/layouts/list_layout/node.py:98-100 | `clear` calls `remove_child(-1)` once per child, under the same guard | two children: the first child is never removed | no child is left | not executed | ListLayoutNodes.Node.Clear | ListLayoutNodes.Node.ClearAll |
| lisp/cues/cue_node.py:78-80 | `remove_child(index)` hands the int to `TreeNode.remove_child`, whose `list.remove` looks for the int among the nodes | any index: ValueError | remove the child at `index` and resync the indices, as the list layout's class does | not executed | CueNodes.CueNode.RemoveChild | ListLayoutNodes.CueNode.RemoveChild |
