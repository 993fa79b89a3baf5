# CategoryTree in Dafny

A model of the core of CategoryTree, an in-memory category service. It covers three parts.

- **The category store.** A map from category name to record and a hierarchy index, which maps a parent name (or `None` for root level) to the ordered list of its children's names. The operations are create, partial update, delete, move (re-parent), get and list-children.
- **The similarity relation.** A set of ordered name pairs that add and delete keep symmetric.
- **The rabbit-hole analysis.**
  - It builds an adjacency map from the similarity pairs.
  - A breadth-first search from every vertex keeps the first strictly deepest path it visits.
  - The paths that tie the maximum length are kept and then deduplicated as sorted name lists.
  - Connected components ("rabbit islands") come from repeated breadth-first searches over a shared visited set.

Files:

- `schemas.dfy` (module `Schemas`)
  - The record types `Category`, `CategoryUpdate` and `Similarity`, and `Option`/`Result`.
  - The `Error` datatype that stands in for the exceptions the services raise:
    - `NotFound(detail)` for the 404 responses, carrying their exact messages;
    - `KeyError` for a dictionary lookup of an absent key;
    - `ValueError` for `list.remove` of an absent name.
  - The partial-update merge.
- `models.dfy` (module `Models`)
  - The shared `InMemoryDatabase` class with its three containers, as mutable fields.
- `category_tree.dfy` (module `CategoryTree`)
  - Each category operation as a function from a `Store` value to an `Outcome`: the result plus the new store.
  - The invariants of the hierarchy index, and the lemmas showing which operations keep them.
- `category_service.dfy` (module `CategoryServices`)
  - The `CategoryService` class.
  - Each method updates the database fields step by step, as the Python code does.
  - Each method is proved to leave exactly the result and state that the `CategoryTree` function prescribes.
- `similarity_service.dfy` (module `Similarities`)
  - The `SimilarityService` class, with specification functions for adding and removing a symmetric pair.
- `graph.dfy` (module `Graph`)
  - Adjacency maps, walks, simple paths and reachability.
- `path_order.dfy` (module `PathOrder`)
  - Python's string order and `sorted`, used to normalise paths.
- `rabbit_hole_script.dfy` (module `RabbitHole`)
  - The `RabbitHoleScript` class, with its loops and their invariants.

Python iterates sets and dictionaries in an order the model does not fix. Every loop over one picks its next element nondeterministically, so each contract holds for any iteration order.

The model follows the code in these behaviours, which are easy to miss when reading it:

- `find_longest_rabbit_hole_optimized` runs the search from every adjacency key, not only from the vertices of minimum degree (rabbit_hole_script.py:41).
- It returns only the list of paths, not the maximum length (rabbit_hole_script.py:51).
- Each single search keeps one path, the first strictly deepest one, not every path that ties its maximum (rabbit_hole_script.py:27-28).
- After a delete, a record can name an absent parent (`ParentsExist` fails). Deleting a category that has children causes this: their `parent_name` keeps naming the deleted category. `CategoryTree.DeleteParentsExist` states exactly when this happens.
- An update that sets `parent_name` re-parents the record without touching the hierarchy index. `CategoryTree.UpdateParentBreaksValid` shows that this breaks the index invariant.
- `create_category` tests `parent_name` for Python truthiness. A parent name of `""` therefore files the category in the root list, while its record keeps `""` as its parent. The invariant lemmas for create assume a parent name other than `""`.
- `create_category` does not check whether the name is already stored. Creating it again replaces the record and appends the name to a list a second time, so the index no longer lists each name once. `CategoryTree.CreateExistingBreaksValid` shows this; the invariant lemmas for create assume a new name.

## Model

| member | source | states |
|---|---|---|
| Schemas.Merge | category_management/category_service.py:28-34 | the updated record has the new name and every field set in the partial; every field left unset keeps its old value |
| Schemas.MergeIdempotent | category_management/category_service.py:29-32 | applying the same partial update twice equals applying it once |
| Models.InMemoryDatabase.constructor | category_management/models.py:5-9 | a new database has no categories, no similarities, and only the empty root list in the index |
| CategoryTree.IndexOf | category_management/category_service.py:43 | the index found holds the first occurrence of the name |
| CategoryTree.RemoveFirst | category_management/category_service.py:43 | `list.remove` drops exactly one occurrence, the first, and keeps the order of the rest |
| CategoryTree.Create | category_management/category_service.py:12-22 | a truthy absent parent fails with "Parent category not found" and changes nothing; a missing root list is a KeyError; otherwise the record is stored under its name and the name is appended to the end of its parent's list (root when the parent is not truthy), creating that list if needed, with all other lists unchanged; success exactly when neither failure applies |
| CategoryTree.Update | category_management/category_service.py:24-35 | an absent name fails with "Category not found", and only then; otherwise the result is the merged record, stored under the old key, with every other record and the whole index unchanged |
| CategoryTree.Delete | category_management/category_service.py:37-47 | an absent name fails with "Category not found"; a name missing from its parent's existing list is a ValueError; otherwise the record is removed, the name is removed from its parent's list, every other list is unchanged, and the message names the category; a failure changes nothing |
| CategoryTree.Move | category_management/category_service.py:49-69 | success exactly when the name is stored, the new parent is `None` or stored, the name is in its old parent's list when that list exists, and the root list exists for a move to `None`; an absent name or an absent non-null new parent fails with the matching message and changes nothing, as does a name missing from its old parent's list, which is exactly a ValueError; a move to `None` with no root list is exactly a KeyError, which leaves the record re-parented to `None` and the name unlinked from its old list; on success the record's parent is the new one, the name is last in the new parent's list, the old parent's list (when it is another list) is the old one with the name's first occurrence removed, other lists are unchanged; the set of stored names never changes |
| CategoryTree.MoveUnlinked | category_management/category_service.py:59-60 | unlinking from the old parent keeps the index's keys |
| CategoryTree.Get | category_management/category_service.py:71-74 | success exactly when the name is stored, returning its record; otherwise "Category not found" |
| CategoryTree.Records | category_management/category_service.py:80 | the records of the listed names in list order, same length; a KeyError exactly when some listed name has no record |
| CategoryTree.GetCategories | category_management/category_service.py:76-80 | a non-null absent parent fails with "Parent category not found"; otherwise the records of the parent's list, or none when the index has no list for it |
| CategoryTree.EmptyStoreValid | category_management/models.py:8 | the initial store satisfies the index invariant, names match keys, and every parent exists |
| CategoryTree.RemoveFirstOnly | category_management/category_service.py:43 | removing a name listed once leaves exactly the other names, each as often as before |
| CategoryTree.CreatePreservesValid | category_management/category_service.py:12-22 | create of a new name keeps every stored name listed exactly once, under its own parent, and every listed name stored |
| CategoryTree.CreatePreservesKeysMatchNames | category_management/category_service.py:21 | create keeps every record stored under its own name |
| CategoryTree.CreatePreservesParentsExist | category_management/category_service.py:13-15 | create keeps every parent reference resolvable |
| CategoryTree.CreateExistingBreaksValid | category_management/category_service.py:12-22 | creating a name that is already stored breaks the index invariant, whatever the new parent |
| CategoryTree.UpdatePreservesValid | category_management/category_service.py:24-35 | an update that leaves the parent unset keeps the index invariant |
| CategoryTree.UpdateParentBreaksValid | category_management/category_service.py:31-34 | an update that sets a different parent breaks the index invariant |
| CategoryTree.UpdateKeysMatchNames | category_management/category_service.py:29-34 | after an update the key matches the record's name exactly when the update carries the old name |
| CategoryTree.DeletePreservesValid | category_management/category_service.py:37-47 | delete keeps the index invariant |
| CategoryTree.DeletePreservesKeysMatchNames | category_management/category_service.py:45 | delete keeps every record under its own name |
| CategoryTree.DeleteParentsExist | category_management/category_service.py:41-45 | after a delete, every parent reference still resolves exactly when no other category had the deleted one as parent |
| CategoryTree.UnlinkedLacksName | category_management/category_service.py:59-60 | after unlinking, the moved name is in no list, and every other name is listed as often as before |
| CategoryTree.MovePreservesListedOnce | category_management/category_service.py:56-69 | a move keeps every stored name listed exactly once, under its parent |
| CategoryTree.RelinkedListedOnce | category_management/category_service.py:62-67 | re-listing an unlinked name at the end of its new parent's list restores "listed exactly once" |
| CategoryTree.MovePreservesListedUnderParent | category_management/category_service.py:56-69 | a move keeps every listed name stored, with the list's key as its parent |
| CategoryTree.RelinkedListedUnderParent | category_management/category_service.py:62-67 | re-parenting the record and listing the unlinked name last in its new parent's list keeps every listed name stored, with the list's key as its parent |
| CategoryTree.MovePreservesValid | category_management/category_service.py:49-69 | a move keeps the index invariant |
| CategoryTree.MoveSucceedsOnValid | category_management/category_service.py:49-69 | on a consistent store, moving a stored category under the root or a stored parent succeeds |
| CategoryTree.MoveKeepsCount | category_management/category_service.py:56-69 | a move does not change the number of stored categories |
| CategoryTree.MoveKeepsOwnChildren | category_management/category_service.py:56-69 | a move leaves the moved category's own child list and its children's records unchanged |
| CategoryTree.MovePreservesParentsExist | category_management/category_service.py:53-62 | a move keeps every parent reference resolvable |
| CategoryTree.MovePreservesKeysMatchNames | category_management/category_service.py:62 | a move keeps every record under its own name |
| CategoryTree.GetCategoriesOnValid | category_management/category_service.py:76-80 | on a consistent store, listing children always succeeds, and every returned record has the requested parent |
| CategoryTree.CreateThenGet | category_management/category_service.py:21-22 | a created category reads back unchanged |
| CategoryTree.DeleteThenGet | category_management/category_service.py:45 | a deleted category reads as "Category not found" |
| CategoryTree.MoveThenGet | category_management/category_service.py:62-69 | a moved category reads back with its new parent and otherwise unchanged |
| CategoryTree.RecordsUnchanged | category_management/category_service.py:80 | the records of a list are unaffected by storing a name not in it |
| CategoryTree.RecordsAppend | category_management/category_service.py:80 | the records of a list with one more name are the old records plus that one |
| CategoryTree.CreateThenList | category_management/category_service.py:17-22 | on a consistent store, listing the new category's parent after a create gives the children listed before, followed by the new record |
| CategoryServices.CategoryService.constructor | category_management/category_service.py:8-10 | the service is bound to the given database (`this.db == db`), so it reads and updates that database's own containers |
| CategoryServices.CategoryService.CreateCategory | category_management/category_service.py:12-22 | the result and the new database are those `CategoryTree.Create` prescribes |
| CategoryServices.CategoryService.UpdateCategory | category_management/category_service.py:24-35 | the result and the new database are those `CategoryTree.Update` prescribes; the field-by-field assignment equals the merge |
| CategoryServices.CategoryService.DeleteCategory | category_management/category_service.py:37-47 | the result and the new database are those `CategoryTree.Delete` prescribes |
| CategoryServices.CategoryService.MoveCategory | category_management/category_service.py:49-69 | the result and the new database are those `CategoryTree.Move` prescribes, including the state left behind by the KeyError on a missing root list |
| CategoryServices.CategoryService.GetCategory | category_management/category_service.py:71-74 | "Category not found" for an absent name, otherwise the stored record |
| CategoryServices.CategoryService.GetCategories | category_management/category_service.py:76-80 | "Parent category not found" for a non-null absent parent; otherwise the parent's child records in list order, or a KeyError exactly when a listed name has no record |
| Similarities.Added | category_management/similarity_service.py:19-20 | both directions are present afterwards, nothing else is added, and a symmetric set stays symmetric |
| Similarities.Removed | category_management/similarity_service.py:28-29 | neither direction is present afterwards, nothing else is removed, and a symmetric set stays symmetric |
| Similarities.SimilarNames | category_management/similarity_service.py:36 | exactly the `y` with `(name, y)` in the set |
| Similarities.AddExistingIsNoOp | category_management/similarity_service.py:19-20 | re-adding a pair already in a symmetric set leaves the set unchanged |
| Similarities.RemoveAbsentIsNoOp | category_management/similarity_service.py:23-30 | deleting a pair absent from a symmetric set leaves the set unchanged |
| Similarities.AddRemoveNeighbours | category_management/similarity_service.py:19-37 | after an add each endpoint is similar to the other; after a delete neither is |
| Similarities.RemoveUndoesAdd | category_management/similarity_service.py:19-29 | deleting a pair that was absent in both directions undoes adding it |
| Similarities.SimilarityService.constructor | category_management/similarity_service.py:8-12 | the service is bound to the given database (`this.db == db`), so it reads and updates that database's own containers |
| Similarities.SimilarityService.CreateSimilarity | category_management/similarity_service.py:14-21 | if either name is not stored, fails with "One or both categories not found" and leaves the set unchanged; otherwise succeeds and adds both directions |
| Similarities.SimilarityService.DeleteSimilarity | category_management/similarity_service.py:23-30 | always succeeds and removes both directions |
| Similarities.SimilarityService.GetSimilarities | category_management/similarity_service.py:32-37 | "Category not found" for an absent name; otherwise the records of exactly the distinct similar names, each once, or a KeyError exactly when one of them is no longer stored |
| Graph.Link | category_management/rabbit_hole_script.py:14-15 | adds one neighbour to one entry, creating it if missing, and changes no other entry |
| Graph.AdjacencyForIsSymmetric | category_management/rabbit_hole_script.py:14-15 | the adjacency map of a pair set is symmetric |
| Graph.AdjacencyForUnique | category_management/rabbit_hole_script.py:11-16 | a pair set has exactly one adjacency map |
| Graph.EmptyAdjacency | category_management/rabbit_hole_script.py:12 | the empty map is the adjacency map of no pairs |
| Graph.AdjacencyForLink | category_management/rabbit_hole_script.py:13-15 | linking both endpoints of one more pair gives the adjacency map of the larger pair set |
| Graph.LinkNeighbours | category_management/rabbit_hole_script.py:14-15 | after linking a pair both ways, `y` is a neighbour of `x` exactly when `(x, y)` or `(y, x)` is among the pairs |
| Graph.EndpointsAdd | category_management/rabbit_hole_script.py:13-15 | one more pair adds exactly its two names to the endpoints |
| Graph.NeighbourIsVertex | category_management/rabbit_hole_script.py:30 | a neighbour is a vertex of the map |
| Graph.ReachesAvoidingSelf | category_management/rabbit_hole_script.py:54 | an unvisited start reaches itself without touching a visited name |
| Graph.ReachesAvoidingStep | category_management/rabbit_hole_script.py:62-64 | an unvisited neighbour of a name reachable around the visited names is reachable around them too |
| Graph.AvoidingReaches | category_management/rabbit_hole_script.py:53-66 | a name reachable around the visited names is reachable |
| Graph.ExtendSimplePath | category_management/rabbit_hole_script.py:31-33 | extending a simple path by an unvisited neighbour of its end gives a simple path |
| PathOrder.StrLeTotal | category_management/rabbit_hole_script.py:50 | any two strings are ordered one way or the other |
| PathOrder.StrLeAntisymmetric | category_management/rabbit_hole_script.py:50 | strings ordered both ways are equal |
| PathOrder.StrLeTransitive | category_management/rabbit_hole_script.py:50 | the string order is transitive |
| PathOrder.Insert | category_management/rabbit_hole_script.py:50 | inserting adds exactly one name and keeps a sorted list sorted |
| PathOrder.SortNames | category_management/rabbit_hole_script.py:50 | `sorted(path)` is a sorted permutation of the path |
| PathOrder.SortedUnique | category_management/rabbit_hole_script.py:50 | two sorted lists with the same elements are equal, so the normalised form is unique |
| PathOrder.SortedHeads | category_management/rabbit_hole_script.py:50 | two sorted lists with the same elements start with the same element |
| PathOrder.Reverse | category_management/rabbit_hole_script.py:49 | reversal keeps the length and mirrors the positions |
| PathOrder.NormalisedReverse | category_management/rabbit_hole_script.py:49-50 | a path and its reverse normalise to the same list |
| PathOrder.ReverseMultiset | category_management/rabbit_hole_script.py:49 | a reversed path holds the same names |
| RabbitHole.EnqueuePaths | category_management/rabbit_hole_script.py:30-33 | keeps the queue and appends one entry `(n, path + [n])` for each unvisited neighbour `n`, each such neighbour exactly once, so the queue grows by their number |
| RabbitHole.PathsQueuedStart | category_management/rabbit_hole_script.py:30 | before any neighbour is examined, the queue is unchanged and nothing is appended |
| RabbitHole.PathsQueuedSkip | category_management/rabbit_hole_script.py:31-32 | passing over a visited neighbour keeps the enqueue invariant |
| RabbitHole.PathsQueuedAppend | category_management/rabbit_hole_script.py:31-33 | appending `(n, path + [n])` for an unvisited neighbour keeps the enqueue invariant |
| RabbitHole.AppendedEntries | category_management/rabbit_hole_script.py:33 | after one append, the appended entries are still distinct unvisited neighbours carrying `path + [n]` |
| RabbitHole.EnqueueNodes | category_management/rabbit_hole_script.py:62-64 | keeps the queue and appends only unvisited neighbours, every one of them, each once |
| RabbitHole.RabbitHoleScript.constructor | category_management/rabbit_hole_script.py:6-9 | the script is bound to the given database (`this.db == db`), so it reads that database's own containers |
| RabbitHole.RabbitHoleScript.CreateAdjacencyList | category_management/rabbit_hole_script.py:11-16 | the keys are exactly the pair endpoints, and `y` is a neighbour of `x` exactly when `(x, y)` or `(y, x)` is a pair |
| RabbitHole.RabbitHoleScript.BfsDeepestPath | category_management/rabbit_hole_script.py:18-35 | the returned path starts at `start`, repeats no name and steps between neighbours; the length is its edge count; each vertex is visited once, by a simple path from `start`; the search covers a neighbour-closed set; the returned path is as long as every visited path and strictly longer than each visited before it |
| RabbitHole.RabbitHoleScript.FindLongestRabbitHole | category_management/rabbit_hole_script.py:37-51 | nothing for an empty map; each key's path is the path a deepest-path search from that key returned, with that search's whole visit record; the maximum is attained, and the result holds the sorted form of exactly the maximal paths, each sorted and each once |
| RabbitHole.RabbitHoleScript.DeepestFromEachSeed | category_management/rabbit_hole_script.py:38-47 | each key's seed path is the one `BfsDeepestPath` returned from that key, with that search's visit record; the kept paths are exactly the seed paths of the maximum length, each of that length, and no seed path is longer; nothing is kept for an empty map |
| RabbitHole.RabbitHoleScript.BfsConnectedComponent | category_management/rabbit_hole_script.py:53-66 | nothing if `start` was visited, otherwise `start` first; each name once, none visited before, each reachable from `start` by a walk through names not visited before; the visited set grows by exactly the component, and every neighbour of a member ends up visited |
| RabbitHole.RabbitHoleScript.FindRabbitIslands | category_management/rabbit_hole_script.py:68-77 | the islands cover every key and are pairwise disjoint; each starts with a key, repeats no name and holds only names reachable from its first; every neighbour of a member lies in that island or an earlier one |
| RabbitHole.QueuedAppend | category_management/rabbit_hole_script.py:33 | appending an entry adds its vertex to the queued set |
| RabbitHole.QueuedSplit | category_management/rabbit_hole_script.py:24 | the queued set is the head's vertex plus the tail's |
| RabbitHole.FrontierSkip | category_management/rabbit_hole_script.py:24-25 | dropping an already visited head keeps every neighbour of a visited name visited or queued |
| RabbitHole.FrontierVisit | category_management/rabbit_hole_script.py:24-33 | visiting the head and queueing its unvisited neighbours keeps every neighbour of a visited name visited or queued |
| RabbitHole.MembersAppend | category_management/rabbit_hole_script.py:75 | one more island adds exactly its names to the members |
| RabbitHole.IslandsDone | category_management/rabbit_hole_script.py:72-77 | once every key is visited, the islands cover the keys with the island properties |
| RabbitHole.IslandsExtend | category_management/rabbit_hole_script.py:73-75 | appending the component of an unvisited key keeps the island properties and grows the visited set |
| RabbitHole.ExtendDisjoint | category_management/rabbit_hole_script.py:74-75 | a component disjoint from earlier islands keeps them pairwise disjoint |
| RabbitHole.ExtendClosed | category_management/rabbit_hole_script.py:74-75 | a component whose neighbours are all visited keeps every neighbour in the same or an earlier island |
| RabbitHole.SearchStart | category_management/rabbit_hole_script.py:19-21 | the initial queue, visited set and empty path satisfy the search invariant |
| RabbitHole.SearchDone | category_management/rabbit_hole_script.py:23-35 | an empty queue yields the deepest-path search's postconditions |
| RabbitHole.SearchVisit | category_management/rabbit_hole_script.py:24-33 | visiting an unvisited head keeps the search invariant, with the deepest path replaced only by a strictly longer one, and grows the visited set |
| RabbitHole.SearchSkip | category_management/rabbit_hole_script.py:24-25 | dropping a visited head keeps the search invariant |
| RabbitHole.ExploreStart | category_management/rabbit_hole_script.py:54-55 | the initial queue and empty component satisfy the component-search invariant |
| RabbitHole.ExploreSkip | category_management/rabbit_hole_script.py:58-59 | dropping a visited head keeps the component-search invariant |
| RabbitHole.ExploreVisit | category_management/rabbit_hole_script.py:58-64 | visiting an unvisited head keeps the component-search invariant and grows the visited set |
| RabbitHole.ExploreDone | category_management/rabbit_hole_script.py:57-66 | an empty queue yields the component search's postconditions |
| RabbitHole.VisitKeepsLog | category_management/rabbit_hole_script.py:25-26 | recording a new vertex with its simple path keeps the visit log |
| RabbitHole.VisitDeeper | category_management/rabbit_hole_script.py:27-28 | a strictly longer path becomes the deepest |
| RabbitHole.VisitNotDeeper | category_management/rabbit_hole_script.py:27 | a path no longer than the deepest leaves the deepest in place |
| RabbitHole.QueueTail | category_management/rabbit_hole_script.py:24 | dropping the head keeps every entry a pending simple path |
| RabbitHole.QueueAfterVisit | category_management/rabbit_hole_script.py:30-33 | queued extensions of the visited head's path are simple paths from `start` |
| RabbitHole.TallyLonger | category_management/rabbit_hole_script.py:43-45 | a seed path longer than the maximum restarts the kept list with itself |
| RabbitHole.TallyTie | category_management/rabbit_hole_script.py:46-47 | a seed path tying the maximum joins the kept list |
| RabbitHole.TallyShorter | category_management/rabbit_hole_script.py:41-47 | a shorter seed path changes neither the maximum nor the kept list |
| RabbitHole.SeedPathsAdd | category_management/rabbit_hole_script.py:41-42 | recording one more seed's path with the record of the search that returned it keeps every seed tied to its search |
| RabbitHole.NormalisedPaths | category_management/rabbit_hole_script.py:49-51 | the normalised list holds the sorted form of exactly the maximal seed paths, each sorted, and is empty for an empty map |
| RabbitHole.ListOf | category_management/rabbit_hole_script.py:51 | lists each element of the set exactly once |
| RabbitHole.IslandsAreClosed | category_management/rabbit_hole_script.py:68-77 | on a symmetric adjacency map, every neighbour of an island's member is in that same island, so the islands are the connected components |

## Left out

- HTTP routing, status codes and the server bootstrap (main.py) are not part of this model. The 404 responses are modelled as `NotFound` results carrying their detail text.
- The load-test script (e2e_metrics_large_data.py) is not part of this model: it is network I/O with random data. The tree printer (category_tree_visualizer.py) is not part of this model either: it is console output over the `children` field, which no service fills.
- The module-level singletons bound to one global database. Each service is a class holding an explicit database object instead.
- Pydantic's `dict(exclude_unset=True)` and `setattr`. They are modelled as a merge of the explicitly set fields, with `name` always among them, because it is a required field of the record.
- Aliasing of record objects. Python updates the stored record in place, and callers that kept a reference would see the change. The model stores records as values and replaces them in the map.
- The order in which Python iterates sets and dictionaries. Components, the normalised path list and the similarity records are specified without an order.
- The defaultdict's insertion of an empty entry when a missing key is read. Reads of a missing vertex give no neighbours and leave the map unchanged. All vertices a search reaches are keys of a symmetric adjacency map, so no such read happens during the analysis.
- `bfs_connected_component` adds to the caller's visited set in place. The model returns the grown set, and the caller continues with it.
- RabbitHole.RabbitHoleScript.BfsDeepestPath: does not prove that breadth-first order visits each vertex by a shortest path. It states that every visited path is simple and that the returned one is the first strictly deepest.
- Similarities.SimilarityService.GetSimilarities: the order of the returned records follows set iteration, which the model leaves open.
- Similarities are not revalidated when a category is deleted. The model keeps the stale pairs, as the code does, and `GetSimilarities` then returns the KeyError.
- CategoryTree.CreatePreservesValid: assumes a parent name other than `""`. A `""` parent files the category in the root list while the record keeps `""` as its parent, which breaks the invariant.
- CategoryTree.CreatePreservesValid: also assumes the name is not already stored. `create_category` does not check this: creating a stored name replaces the record and lists the name a second time, which breaks the invariant (`CategoryTree.CreateExistingBreaksValid`).
