# TreeStore, modelled in Dafny

`TreeStore<T>` (`src/assets/ts/TreeStore.ts`) is an in-memory index over a
flat list of tree items. Each item has an `id`, a nullable `parent` and a
`label`. The store keeps four structures in step:

- `items`: every item, in insertion order;
- `byId`: id to item;
- `parentById`: id to normalised parent (`parent ?? null`);
- `childrenByParent`: normalised parent to the ordered list of its child ids.

On top of these it offers direct-children and all-descendants queries, the
ancestor chain of an item, and add, update and cascading remove.

This project models that class in Dafny and proves that every write keeps
the four structures in agreement. It also proves what each query and write
returns and what it leaves behind.

## Layout

- `wrappers.dfy`: `Option` (the nullable parent, `None` standing for `null`)
  and `Result` (the two thrown errors become failure values).
- `seqs.dfy`: duplicate freedom, `indexOf`, the filter `Without`, and why
  `splice` at `indexOf` in a duplicate-free list is that filter.
- `forest.dfy`: the parent relation as a value. It contains:
  - acyclicity, stated through a ranking in which every registered parent
    ranks below its child;
  - descent, descendants, the ancestor chain `Path`;
  - the invariant of the stack walk shared by `getAllChildren` and
    `removeItem`.
- `items.dfy`: the item and patch datatypes, the object-spread merge, and the
  indexes the constructor builds from a list, written as reference
  functions. Also the filter of `removeItem` and the id lookup of
  `getChildren`.
- `index.dfy`: the store invariant on values (`Index.Indexed`), with one
  lemma per write showing that the write keeps it.
- `tree_store.dfy`: the class `Store.TreeStore`, with fields `items`, `byId`,
  `parentById` and `childrenByParent`, and a ghost `rank` that witnesses
  acyclicity. Beside it are the loops of the source as value-level methods,
  each proved against a specification function. The class methods call them
  and assign the fields.

`Valid()` is the index agreement plus a ranking of `parentById`. The three
walks of the source (`getAllChildren`, `getAllParents` and the collection
phase of `removeItem`) have no guard against cycles. So they require
`Valid()`, and they terminate by the ranking.

Acyclicity is a precondition of the walks, not of the writes:
- `addItem` and `updateItem` keep the index agreement unconditionally;
- they keep `Valid()` unless the new parent link closes a cycle, i.e. the
  new parent is the item itself or lies below it (`Forest.ClosesCycle`);
- `removeItem` always keeps `Valid()`.

The constructor gives agreeing indexes when the input ids are distinct. It
gives a valid store when, in addition, the parent relation of the input is
acyclic.

## Model

| member | source | states |
|---|---|---|
| Store.TreeStore.constructor | src/assets/ts/TreeStore.ts:15-30 | the list is copied and the three indexes are exactly those the reference builders give for the input; each children list holds the ids of the items with that parent in input order; distinct ids give agreeing indexes, and an acyclic input also gives a valid store |
| Store.BuildIndexes | src/assets/ts/TreeStore.ts:21-29 | the constructor's loop computes `ByIdOf`, `ParentMapOf` and `ChildIndex` of its input (loop invariant over the prefix processed so far) |
| Store.AppendChild | src/assets/ts/TreeStore.ts:25-28 | appending to an existing list or creating `[x]` is the same as appending x to the list (empty when missing); no other list changes |
| Items.ChildIndexInInputOrder | src/assets/ts/TreeStore.ts:21-29 | the built children list of p is the ids of the input items whose parent is p, in input order |
| Items.ByIdOfKeys | src/assets/ts/TreeStore.ts:22-23 | the built identity and parent indexes have exactly the input's ids as keys |
| Items.ByIdOfValues | src/assets/ts/TreeStore.ts:22-23 | with distinct ids, every input item is the identity entry for its id and its parent is the parent entry |
| Index.BuildIndexed | src/assets/ts/TreeStore.ts:15-30 | building from a list with distinct ids gives indexes that agree with it |
| Index.ItemsDetermineById | src/assets/ts/TreeStore.ts:16-22 | two identity indexes that agree with the same item list are equal |
| Index.ChildSetsAgree | src/assets/ts/TreeStore.ts:25-28 | two children indexes that agree with the same identity index list the same ids under every parent |
| Index.RebuildParents | src/assets/ts/TreeStore.ts:23 | the parent index built from the item list of an agreeing store is that store's parent index |
| Index.RebuildKeepsIndex | src/assets/ts/TreeStore.ts:15-30 | rebuilding a store from its own item list gives back its identity and parent indexes and children lists with the same members (not always in the same order) |
| Index.ItemCount | src/assets/ts/TreeStore.ts:10-11 | an agreeing store holds as many items as ids |
| Index.ChildListExact | src/assets/ts/TreeStore.ts:12 | every children list is duplicate free and lists exactly the registered ids with that parent |
| Items.ChildListOrEmpty | src/assets/ts/TreeStore.ts:37 | the lookup `Items.ChildList` (`get(p) ?? []`) is empty exactly when p has no list or an empty one; after a `set` it reads back the list written, after a `delete` it reads empty, and other keys read as before |
| Store.TreeStore.GetAll | src/assets/ts/TreeStore.ts:32-34 | the list returned holds each registered id once, each item being the identity entry of its id |
| Store.TreeStore.GetChildren | src/assets/ts/TreeStore.ts:36-39 | the ids returned are the children list of id, in its order (empty when there is none), and they are exactly the registered items whose parent is id |
| Items.Resolve | src/assets/ts/TreeStore.ts:38 | looking ids up and dropping the misses never lengthens the list, and when every id is registered it maps each position to its item |
| Store.TreeStore.GetAllChildren | src/assets/ts/TreeStore.ts:41-60 | every item strictly below id, each once, never id itself, each the identity entry of its id, in pre-order (an item follows its parent unless the parent is id) |
| Store.ItemsBelow | src/assets/ts/TreeStore.ts:41-60 | the stack walk that skips unregistered ids emits exactly the descendants of id, each once, in pre-order |
| Store.PushAll | src/assets/ts/TreeStore.ts:53-56 | pushing the children one by one leaves the stack followed by the children in order |
| Forest.WalkStart | src/assets/ts/TreeStore.ts:43 | the walk starts from the children of id with nothing visited, and the walk invariant holds |
| Forest.WalkStep | src/assets/ts/TreeStore.ts:46-57 | popping the last id, visiting it and pushing its children keeps the walk invariant: stack and visited list duplicate free and disjoint, together exactly the children of id and of the visited ids, all below id |
| Forest.WalkBound | src/assets/ts/TreeStore.ts:45 | the visited list never holds more ids than there are registered ids, which bounds the loop |
| Forest.WalkDone | src/assets/ts/TreeStore.ts:45 | when the stack is empty the visited ids are exactly the descendants of id |
| Forest.PreOrderStep | src/assets/ts/TreeStore.ts:46-57 | each visited id's parent is id or was visited earlier |
| Forest.NotOwnDescendant | src/assets/ts/TreeStore.ts:41-60 | in an acyclic relation no id lies below itself |
| Forest.NoMutualDescent | src/assets/ts/TreeStore.ts:41-74 | no id is both above and below another |
| Forest.DescendsRank | src/assets/ts/TreeStore.ts:41-60 | an id below x is registered, differs from x and ranks above x |
| Forest.DescendsIndependentOfRank | src/assets/ts/TreeStore.ts:41-60 | descent depends on the parent index alone, not on the ranking that witnesses acyclicity |
| Store.TreeStore.GetAllParents | src/assets/ts/TreeStore.ts:62-74 | the ids returned are the ancestor chain of id, and each item is the identity entry of its id |
| Store.ItemsAbove | src/assets/ts/TreeStore.ts:62-74 | the cursor walk emits the items of the chain from id up to the root or to the first id without an item |
| Forest.PathSteps | src/assets/ts/TreeStore.ts:62-74 | the chain is empty exactly when id has no item, starts at id, each next id is the parent of the one before, and it stops at a root parent or an unregistered one |
| Forest.PathAscends | src/assets/ts/TreeStore.ts:62-74 | every later id on the chain lies above id, ranks strictly rise along it, and no id repeats |
| Store.TreeStore.AddItem | src/assets/ts/TreeStore.ts:76-93 | a present id fails with DuplicateKey and changes nothing; otherwise the item is appended to the list, entered in both maps and appended to its parent's list, nothing else changes, the indexes stay in agreement, and validity is kept unless the new parent link closes a cycle |
| Index.AddIndexed | src/assets/ts/TreeStore.ts:82-90 | the four changes of addItem together keep the indexes in agreement |
| Index.AddItems | src/assets/ts/TreeStore.ts:82-84 | appending an item with a new id keeps the list and the identity index in agreement |
| Index.AddChildren | src/assets/ts/TreeStore.ts:87-90 | appending the new id to its parent's list keeps the children index in agreement |
| Index.SetParent | src/assets/ts/TreeStore.ts:85-86 | recording the item's parent keeps the parent index in agreement |
| Forest.ReparentStaysAcyclic | src/assets/ts/TreeStore.ts:109 | giving x a parent that is neither x nor below x keeps the relation acyclic |
| Store.TreeStore.UpdateItem | src/assets/ts/TreeStore.ts:95-123 | an absent id fails with NotFound and changes nothing; otherwise the merged item replaces the one with that id at its position in the list and in both maps, the children index moves the id only when the parent changes, the indexes stay in agreement, and validity is kept unless the new parent link closes a cycle |
| Store.ReplaceItem | src/assets/ts/TreeStore.ts:105-120 | the list keeps its length and changes only at the slot of the id, both maps take the merged item, the children index is the move, and the result agrees |
| Store.MoveChild | src/assets/ts/TreeStore.ts:111-120 | splicing the id out of the old parent's list and appending it to the new one's, only when the parent changes, computes the move `Reparented` |
| Store.SpliceOut | src/assets/ts/TreeStore.ts:112-116 | splicing at the position `indexOf` finds, when the list is present, filters the id out of a duplicate-free list and leaves every other list alone |
| Items.MergeOverrides | src/assets/ts/TreeStore.ts:102 | the spread `Items.Merge`: every field the patch gives replaces the existing one, every field it omits is kept, and the id is the patch's; an empty patch changes nothing and applying a patch twice is applying it once |
| Index.ReparentedMoves | src/assets/ts/TreeStore.ts:111-120 | with the same parent nothing moves; otherwise the id is gone from the old list, the rest of that list keeps its order, the id is last in the new list after its previous members, and every other list is untouched |
| Index.MoveAppendsExample | src/assets/ts/TreeStore.ts:117-119 | in the four-item example, moving 3 from 1 to 2 gives 2 the children [4, 3] and leaves 1 with [2], while rebuilding from the updated item list gives 2 the children [3, 4] |
| Index.UpdateIndexed | src/assets/ts/TreeStore.ts:105-120 | the changes of updateItem together keep the indexes in agreement |
| Index.UpdateItems | src/assets/ts/TreeStore.ts:105-108 | replacing the slot of the id and its identity entry keeps the list and the identity index in agreement |
| Index.UpdateChildren | src/assets/ts/TreeStore.ts:111-120 | moving the id between children lists keeps the children index in agreement |
| Seqs.IndexOf | src/assets/ts/TreeStore.ts:114 | the result is -1 exactly when the value is absent, and otherwise is its first position |
| Seqs.SpliceIsWithout | src/assets/ts/TreeStore.ts:114-115 | removing the one occurrence of a value from a duplicate-free list is filtering that value out |
| Seqs.WithoutMembers | src/assets/ts/TreeStore.ts:147-148 | the filter keeps exactly the values not filtered, and never lengthens the list |
| Seqs.WithoutNoDup | src/assets/ts/TreeStore.ts:147-148 | filtering keeps a list duplicate free |
| Seqs.WithoutTwice | src/assets/ts/TreeStore.ts:143-149 | filtering in two rounds is filtering once by the union |
| Store.TreeStore.RemoveItem | src/assets/ts/TreeStore.ts:125-158 | an absent id gives [] and changes nothing; otherwise the result starts with id and lists id and everything below it, each once, each after its parent; the list keeps the other items in order, all three indexes lose exactly those ids, and the store stays valid |
| Store.RemoveSubtreeFrom | src/assets/ts/TreeStore.ts:126-157 | collecting, filtering and deleting for a present id gives the pruned indexes, which agree and stay ranked |
| Store.CollectSubtree | src/assets/ts/TreeStore.ts:128-138 | the walk seeded with id lists id first, then every id below it, each once, each after its parent unless that parent is id |
| Forest.WalkDoneWithRoot | src/assets/ts/TreeStore.ts:128-138 | id followed by the finished walk is duplicate free and holds exactly id and its descendants |
| Forest.SubtreeClosed | src/assets/ts/TreeStore.ts:128-138 | an id with its descendants is closed under taking children, so the cascade leaves no orphan |
| Forest.ClosedContainsDescendants | src/assets/ts/TreeStore.ts:128-138 | any set holding the children of id and of its own members holds every descendant of id |
| Items.SurvivorsInOrder | src/assets/ts/TreeStore.ts:141 | the filter `Items.Survivors` keeps relative order: it distributes over concatenation, keeps a list with no deleted id whole, and never lengthens it |
| Items.SurvivorsMembers | src/assets/ts/TreeStore.ts:140-141 | the filter keeps exactly the items whose id is not deleted |
| Items.SurvivorIds | src/assets/ts/TreeStore.ts:140-141 | the ids of the surviving items are the old id list with the deleted ids filtered out, in order |
| Index.RemoveItems | src/assets/ts/TreeStore.ts:140-141 | filtering the list and deleting the same ids from the identity index keeps them in agreement |
| Store.DeleteAll | src/assets/ts/TreeStore.ts:143-155 | deleting the collected ids one by one removes exactly them from the identity and parent indexes and prunes the children index of them |
| Index.PruneStep | src/assets/ts/TreeStore.ts:144-154 | one round of the delete loop turns the index pruned of the ids so far into the index pruned of one more |
| Index.PruneAtParent | src/assets/ts/TreeStore.ts:145-149 | in the list of the deleted id's parent, the round filters that id out of what was left |
| Index.PruneElsewhere | src/assets/ts/TreeStore.ts:145-149 | the round leaves every list except that of the id's parent as it was |
| Index.PruneKeys | src/assets/ts/TreeStore.ts:154 | the round drops the deleted id's own entry and no other key |
| Index.PruneNothing | src/assets/ts/TreeStore.ts:143 | before the first round the index equals the index pruned of nothing |
| Index.PrunedNoDup | src/assets/ts/TreeStore.ts:147-148 | pruned lists stay duplicate free |
| Index.PrunedFrom | src/assets/ts/TreeStore.ts:143-155 | an id left in a pruned list was in the original list and was not deleted |
| Index.PruneRemoves | src/assets/ts/TreeStore.ts:143-155 | after pruning, no deleted id is a key of the children index or in any list, and every other key remains |
| Index.RemoveChildren | src/assets/ts/TreeStore.ts:143-155 | deleting a set that contains the children of its members keeps the children index in agreement |
| Index.RemoveIndexed | src/assets/ts/TreeStore.ts:140-155 | such a deletion keeps all the indexes in agreement |
| Index.RemoveSubtree | src/assets/ts/TreeStore.ts:125-155 | deleting id and everything below it keeps the indexes in agreement and the relation ranked |
| Forest.RankedRemove | src/assets/ts/TreeStore.ts:152 | dropping ids from the parent index keeps it ranked |
| Index.IndexedListsKids | src/assets/ts/TreeStore.ts:43-56 | in an agreeing store every children list is duplicate free and holds exactly the children of its id in the parent index, which is what the walks rely on |
| Index.ChildListIsKids | src/assets/ts/TreeStore.ts:51 | the children list of one id holds exactly its children in the parent index |

## Left out

- The Vue application in `src/main.ts`: UI bootstrapping with no store logic.
- Error messages: the two `throw`s of `addItem` and `updateItem` become the
  failure values `DuplicateKey` and `NotFound`, without their text.
- Aliasing: the store shares arrays and item objects with its callers, and
  the model treats both as values, so it cannot show what follows from
  that sharing:
  - `getAll` hands out the internal array (`TreeStore.ts:33`), so a caller
    can change the list behind the indexes;
  - the constructor copies only the array, not the items (`:16`), and
    `addItem` stores the caller's own object (`:82`, `:84`);
  - `getChildren`, `getAllChildren`, `getAllParents` and `updateItem` hand
    out the stored objects (`:38`, `:49`, `:69`, `:122`);
  - a caller that then changes such an object's `parent` puts
    `parentById` and `childrenByParent` out of step with `byId`.
- In-place updates of the arrays held inside `childrenByParent`: `push` and
  `splice` on a list owned by the map become reassigning the map entry.
  Nothing else holds those arrays, so no reader can tell the difference.
- A field set explicitly to `undefined` in an update (`{id, label: undefined}`):
  the spread at `TreeStore.ts:102` copies it, so the field becomes
  `undefined`. `Patch.text` and `Patch.payload` can only say that a field is
  absent or give it a value, so this case is not modelled. A `parent` set
  to `undefined` is modelled, as `Some(None)`, since it normalises to the
  root.
- Object fields beyond `id`, `parent` and `label`: they are one `payload`
  field, carried along and replaced by the merge like any other field.
  `label` is named `text`, because `label` is a Dafny keyword.
- `null` and `undefined` parents: both are `None`. The model stores the
  normalised parent in each item. The source keeps an item's `parent` field
  as given, and normalises it only in the two maps.
- The id type `string | number`: it becomes a type parameter with equality.
- Cyclic parent chains: the source walks them forever. The walks require
  `Valid()`, whose ranking rules cycles out. `addItem` and `updateItem`
  promise `Valid()` afterwards only when the new link closes no cycle.
- Duplicate ids in the constructor's input: the model builds the same maps
  as the source. It promises agreeing indexes only for distinct ids.
- Sibling order after an update: the children of a parent keep insertion
  order only up to moves. `Index.RebuildKeepsIndex` states rebuilt children
  lists as sets for this reason.
- Store.TreeStore.RemoveItem: the order of the descendants after `id` is
  stated only as pre-order (each comes after its parent), not as the exact
  sibling order of the stack walk. The same holds for
  `Store.TreeStore.GetAllChildren`. The collection loop of `removeItem`
  (`TreeStore.ts:131-137`) does not skip ids that have no item, while
  `getAllChildren` does (`:47-48`). The two walks visit the same ids only
  because every id in a children list is registered, which `Valid()`
  guarantees.

## Child order after a move

`updateItem` appends a moved id after its new siblings
(`src/assets/ts/TreeStore.ts:117-119`). In the four-item example of
`Index.MoveAppendsExample`, moving 3 under 2 gives 2 the children [4, 3],
not [3, 4]. Rebuilding the store from the updated item list would give
[3, 4], and the same lemma proves that too.
