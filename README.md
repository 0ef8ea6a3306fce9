# Nested-set tree linking (laravel-nestedset `Collection`)

This project models the in-memory tree builder of the `kalnoy/nestedset`
package: the `Collection` class that takes a flat list of nodes fetched from
a nested-set table (each with a primary key, a parent id and an `_lft`
bound) and rebuilds the tree in memory.

- `linkNodes` groups the nodes by parent id, then walks the collection once.
  For each node it sets the `parent` relation to null unless it already holds
  a node, points the `parent` of each node in its group back at it, and sets
  its `children` relation to that group.
- `getRootNodeId` resolves the `$root` argument of `toTree`: a node gives its
  key, a raw id is used unchanged, and an omitted root gives the parent id of
  the first node with the least `_lft`.
- `toTree` links the whole collection, then returns the nodes whose parent id
  is the resolved root id, in collection order. An empty collection gives an
  empty result.

The model is an arena. `Collection.nodes` is the sequence of node records
(`key`, `parentId`, `lft`). The two relation slots are arrays indexed like
`nodes`: `parent: array<ParentSlot>` and `children: array<seq<nat>>`. A slot
names another node by its index. `ParentSlot` has three states: `Unloaded` (the
relation was never set), `NoParent` (set to null) and `ParentAt(i)`. `ToTree`
returns indices into the arena, that is, the same node objects.

`link_spec.dfy` (module `LinkSpec`) holds the records and the pure functions
that give the state each operation must produce: `Group`, `LastWithKey`,
`LinkedParents`, `LinkedChildren`, `FirstLeast` and `RootId`. It also holds
the lemmas about them. `collection.dfy` (module `Nestedset`) holds the
`Collection` class. Each of its methods is proved against those functions.

With the root omitted, a collection that contains the top node of a tree
resolves the root id to that top node's own parent id, which is null. The
result is then the top node itself, not its children.
`LinkSpec.OmittedRootSelectsTopNode` states this for a three-node tree.

## Model

| member | source | states |
|---|---|---|
| `Nestedset.Collection.constructor` | src/Collection.php:8 | a collection over the fetched nodes, with each `parent` relation as the caller loaded it |
| `Nestedset.Collection.GroupByParent` | src/Collection.php:21 | the grouping index maps every parent id to exactly the nodes carrying it, in collection order, and holds no empty group |
| `LinkSpec.MatchingExact` | src/Collection.php:21 | a group holds exactly the indices whose parent id is the group key, each once, in strictly increasing order |
| `LinkSpec.UnmatchedSelectsNothing` | src/Collection.php:64-66 | a parent id that no node carries selects no node |
| `Nestedset.Collection.LinkNodes` | src/Collection.php:17-40 | the new parent slots are the linked parents of the old ones and the new children slots are the linked children; every slot still names a node of the collection; an empty collection is left as it was |
| `Nestedset.Collection.LinkOne` | src/Collection.php:24-37 | one turn of the loop: an unset parent becomes null, each node of the group points at the current node, and the group becomes its children; no other slot changes |
| `Nestedset.Collection.PointAt` | src/Collection.php:32-34 | each listed child's parent slot now names the current node; every other parent slot is unchanged |
| `LinkSpec.LastWithKey` | src/Collection.php:32-34 | the node that sets a given parent last is the last node before that point whose key matches; none matches when it gives nothing |
| `LinkSpec.ParentsStep` | src/Collection.php:24-36 | one step of the pass, applied to all parent slots at once, moves the parent state from i steps to i + 1 steps |
| `LinkSpec.LinkedParentExact` | src/Collection.php:24-34 | after linking, a node whose parent id is the key of some node points at the last such node; any other node keeps the parent it held, or gets null |
| `LinkSpec.LinkKeepsSetParents` | src/Collection.php:25-27 | linking never clears a parent that is set, and leaves no parent relation unloaded |
| `LinkSpec.LinkedChildrenExact` | src/Collection.php:29-36 | after linking, a node's children are exactly the nodes whose parent id is its key, in collection order |
| `LinkSpec.ChildPointsBack` | src/Collection.php:29-36 | every child in a node's children list points back at that node, unless a later node has the same key |
| `LinkSpec.LinkIdempotent` | src/Collection.php:11-13 | linking a second time gives the same parent slots as linking once |
| `Nestedset.LinkTwice` | src/Collection.php:17-40 | two calls of `LinkNodes` leave the slots exactly as one call does |
| `LinkSpec.FirstLeast` | src/Collection.php:85-94 | the chosen node has the least `_lft`, and every earlier node has a strictly greater one, so ties go to the earliest node |
| `LinkSpec.NullRootIsParentOfFirstLeast` | src/Collection.php:83-94 | with the root omitted, the resolved id is the parent id of the first node with the least `_lft` |
| `Nestedset.Collection.GetRootNodeId` | src/Collection.php:77-98 | a node gives its key, a raw id is returned unchanged, and an omitted root gives the parent id of the first least-`_lft` node (null on an empty collection) |
| `Nestedset.Collection.ToTree` | src/Collection.php:54-70 | the collection is linked, and the result is exactly the indices whose parent id is the resolved root id, in collection order; an empty collection gives an empty result |
| `LinkSpec.OmittedRootSelectsTopNode` | src/Collection.php:61-66 | for a top node with two children and the root omitted, the result is the top node; with the top node's key as root, the result is its two children |

## Left out

- Identifiers are one concrete type (`int`), compared with strict equality. PHP's `==` at src/Collection.php:65 is coercive (`5 == "5"`, `null == 0`), and so is the key handling of Laravel's `groupBy`. Neither is modelled.
- `isset($node->parent)` may lazy-load the relation on a real model. Here it is a plain test of whether the slot holds a node.
- A `parent` relation loaded beforehand with an object that is not in the collection cannot be represented. A slot names only nodes of the collection.
- The `children` slot does not record whether the relation was loaded before linking. Linking overwrites it unconditionally, so the earlier value never matters.
- The `NodeTrait::hasTrait` test is replaced by the explicit `RootSelector` sum type: `Null`, `ByNode(node)` or `ById(id)`.
- `linkNodes` returns `$this` for chaining. `LinkNodes` returns nothing, and the collection it works on is the same object.
- `toTree` wraps its result in a new collection. `ToTree` returns the sequence of node indices that collection would hold.
- The name of the parent-id column, read from the first node, is not modelled. Every node has one `parentId` field.
- `_lft` values are integers. Null or non-numeric values are not modelled, and neither are null primary keys.
- Cycles and dangling parent ids are not detected, and the model promises nothing about them.
