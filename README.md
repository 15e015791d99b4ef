# Pokedex owner registry (ex7.py) in Dafny

This project models the algorithmic core of `ex7.py`, a console program that keeps
a registry of creature-collection owners. The program has three layers:

- **The owner registry** (`owner_tree.dfy`, `registry.dfy`). The registry is an
  unbalanced binary search tree of owners keyed by name. It supports:
  - insertion, which compares raw names with Python's case-sensitive `<`;
  - lookup, which compares lower-cased names;
  - `min_node`, which walks left links with a loop;
  - deletion, with leaf, one-child and two-children (successor promotion) cases.

  The `Registry` class holds the program's global tree. Its methods model the main-menu
  actions "New Pokedex" and "Delete a Pokedex", and the write-back of an owner's
  pokedex after the per-owner operations.
- **Traversals and the report** (`traversals.dfy`, `report.dfy`):
  - level order (the queue loop of `bfs_traversal`), pre-order, in-order and post-order;
  - `gather_all_owners`;
  - the owners report sorted by `(len(pokedex), name.lower())`.

  Each traversal returns the sequence of owners it visits instead of printing them.
- **Per-owner collection operations** (`catalog.dfy`, `pokedex.dfy`):
  - the two catalog lookups;
  - the starter choice;
  - the row loop of the catalog reader;
  - add by ID, release by name, evolve by name;
  - the six display filters.

  Each operation takes its console input as a parameter. It returns the new pokedex
  together with a status that says which branch the program took.

Strings are `seq<char>`:
- `Strings.Less` is Python's code-point lexicographic `<`.
- `Lower` and `Upper` are ASCII case mapping.
- `Strip` removes Python's default whitespace.

An owner tree can be ordered in two ways, both written as `OrderedBy(t, order)`:
- `Exact` compares raw names;
- `Folded` compares lower-cased names.

`LowerOrdered(t)` is the `Folded` ordering. Under `Folded`, lower-cased names are also
unique, which is the invariant that lookup and deletion rely on.

Insertion compares names case-sensitively, while lookup compares them lower-cased (see
"## Findings"). The model keeps the insertion as written (`OwnerTree.Insert`) and shows
the case where the two disagree. It also defines the corrected insertion
(`OwnerTree.InsertLower`), which places owners by lower-cased name, and the `Registry`
class uses that one.

Four behaviours of the program are modelled as it has them:
- Deleting an absent name is not a no-op. The search runs off the tree and indexes
  `None`, which crashes. `OwnerTree.Delete` returns `None` for that case. The menu
  only deletes after a successful lookup, but on a tree placed by raw names that does
  not prevent the crash: the promoted successor can sit where the lower-cased descent
  of its own deletion does not look (`OwnerTree.DeletePresentCrashes`, and the second
  row under "## Findings"). On a tree placed by lower-cased names, as the `Registry`
  class keeps it, deleting a present name always completes (`OwnerTree.DeleteRemoves`).
- The "Can Evolve" column is only upper-cased, not normalised to two values. Evolution
  is refused only when the field is exactly `"FALSE"`.
- Loading the catalog fails on a row that is too short as well as on a malformed
  number. The first field the program reads that fails decides the error.
- Picking a starter from a catalog too short for the chosen position raises IndexError.
  `Catalog.Starter` returns `Failure(CatalogTooShort)` for that case, and
  `Registry.Registry.CreateOwner` then reports `StarterMissing` and changes nothing.

## Model

| member | source | states |
|---|---|---|
| Strings.LessTotal | ex7.py:125-128 | Python's string `<` is total: two different strings are ordered one way or the other |
| Strings.LessTransitive | ex7.py:125-128 | Python's string `<` is transitive, which the search-tree invariant relies on |
| Strings.LessIrreflexive | ex7.py:138-143 | no string is below itself, so a name equal to a key never goes left or right |
| Strings.LessAsymmetric | ex7.py:138-143 | at most one of `a < b` and `b < a` holds |
| Strings.StripUpper | ex7.py:391-392 | stripping and upper-casing commute, since case mapping leaves white space alone |
| Strings.LowerUpper | ex7.py:391-392 | lower-casing forgets an earlier upper-casing |
| Strings.LowerIdempotent | ex7.py:472-473 | lower-casing an already lower-cased name changes nothing |
| Catalog.GetPokeById | ex7.py:60-65 | nothing is returned iff no catalog entry has the ID; otherwise the first entry with that ID is returned |
| Catalog.GetPokeByName | ex7.py:69-75 | nothing is returned iff no catalog name, lower-cased, equals the stripped lower-cased query; otherwise the first such entry is returned |
| Catalog.Starter | ex7.py:95-105 | choices 1, 2 and 3 pick catalog positions 0, 3 and 6; every other choice picks none; a catalog without the chosen position fails as the IndexError does |
| Catalog.SentinelFrom | ex7.py:30-31 | the index of the first empty or blank-first-field row from a given row on, with no such row before it |
| Catalog.ParseRow | ex7.py:32-39 | a data row converts iff it has six fields and its ID, HP and Attack fields parse. The entry then holds the columns in order with "Can Evolve" upper-cased. A missing field is reported only for a short row, and a bad number exactly when a field the program reads before any missing one does not parse |
| Catalog.ReadRows | ex7.py:22-40 | the load succeeds iff every data row (after the header, before the first sentinel) converts. Success holds the converted rows in order. Failure names the first failing row and its error |
| OwnerTree.InOrder | ex7.py:223-234 | the in-order sequence has one entry per node |
| OwnerTree.Insert | ex7.py:121-130 | insertion as written (`InsertBy` with raw names): the tree comes back unchanged or with exactly the new owner added. On a tree ordered by raw names it stays ordered and gains exactly the new name as a key |
| OwnerTree.InsertLower | ex7.py:121-130 | the corrected insertion (`InsertBy` with lower-cased names): unchanged or exactly the new owner added. On a tree ordered by lower-cased names it stays ordered and gains exactly the new lower-cased name |
| OwnerTree.InsertDropsOrAdds | ex7.py:121-130 | on any tree, ordered or not, the descent of `insert_owner_bst` either drops the new owner or adds exactly it |
| OwnerTree.InsertKeys | ex7.py:121-130 | inserting adds exactly the new owner's key to the tree's keys |
| OwnerTree.InsertOrdered | ex7.py:121-130 | insertion keeps the search-tree ordering it places by |
| OwnerTree.InsertAscending | ex7.py:121-130 | insertion keeps the in-order names strictly increasing under case-sensitive `<` |
| OwnerTree.InsertPresent | ex7.py:121-130 | a node whose key is already present is dropped: the tree is unchanged |
| OwnerTree.InsertAbsent | ex7.py:121-130 | otherwise the tree's owners grow by exactly the new owner |
| OwnerTree.InsertAsLeaf | ex7.py:121-130 | a new owner is attached as a leaf |
| OwnerTree.Find | ex7.py:134-146 | an empty tree gives nothing; a result is an owner of the tree whose lower-cased name is the query's |
| OwnerTree.FindComplete | ex7.py:134-146 | on a tree ordered by lower-cased names, lookup succeeds iff the lower-cased query is a key, and it returns the owner with that name |
| OwnerTree.KeyOfMember | ex7.py:134-146 | every owner of the tree contributes its key |
| OwnerTree.MemberOfKey | ex7.py:134-146 | every key belongs to some owner of the tree |
| OwnerTree.OrderedIffAscending | ex7.py:121-146 | a tree is a search tree for an ordering iff its in-order names strictly ascend in that ordering |
| OwnerTree.Leftmost | ex7.py:148-153 | the leftmost node has no left child and holds the first owner in in-order |
| OwnerTree.LeftmostIsMin | ex7.py:148-153 | in an ordered tree the leftmost node's key is the minimum key |
| OwnerTree.MinNode | ex7.py:148-153 | the loop over left links gives nothing for an empty tree. Otherwise it gives a node with no left child that holds the first in-order owner, whose lower-cased name is the minimum |
| OwnerTree.Delete | ex7.py:156-182 | a deletion that completes removes exactly one node, whichever of the leaf, one-child and two-children cases applies. `DeleteAbsentFails` and `DeleteRemoves` state when it completes and what it removes |
| OwnerTree.DeleteAbsentFails | ex7.py:156-161 | deleting a name that lookup cannot find runs off the tree (the crash at line 158) |
| OwnerTree.DeleteRemoves | ex7.py:156-182 | deleting a present name keeps the tree ordered by lower-cased names. In-order is the old in-order without that owner, and the keys lose exactly that key |
| OwnerTree.WithoutFirst | ex7.py:156-182 | removing by name drops exactly the first owner with that lower-cased name and keeps the others in order; with no such owner nothing changes |
| OwnerTree.InsertCaseMismatch | ex7.py:121-146 | inserting "alice" then "Bob" as written leaves "Bob" where lookup for "bob" cannot find it, so a second owner "bob" is admitted |
| OwnerTree.DeletePresentCrashes | ex7.py:121-182 | inserting "M", "A", "b", "Z" as written puts "Z" left of "b"; lookup finds "M", yet deleting "M" promotes "Z" and the deletion of "Z" from the right subtree descends right of "b" and crashes |
| OwnerTree.InsertLowerFinds | ex7.py:121-146 | the corrected insertion keeps the tree ordered by lower-cased names. Lookup then finds the new owner, and every other lookup is unchanged |
| Traversals.PreOrder | ex7.py:210-221 | pre-order (node, left, right) lists one entry per node |
| Traversals.PostOrder | ex7.py:237-248 | post-order (left, right, node) lists one entry per node |
| Traversals.PreOrderVisitsEachOnce | ex7.py:210-221 | pre-order is a permutation of the tree's nodes |
| Traversals.InOrderVisitsEachOnce | ex7.py:223-234 | in-order is a permutation of the tree's nodes |
| Traversals.PostOrderVisitsEachOnce | ex7.py:237-248 | post-order is a permutation of the tree's nodes |
| Traversals.PreOrderMirrorsPostOrder | ex7.py:210-248 | pre-order is post-order of the mirrored tree, reversed |
| Traversals.InOrderMirror | ex7.py:223-234 | in-order of the mirrored tree is in-order reversed |
| Traversals.LevelOrder | ex7.py:188-207 | level order of a non-empty tree starts with the root |
| Traversals.QueueIsLevels | ex7.py:193-207 | the queue discipline (dequeue, enqueue the left child then the right child) visits a forest level by level |
| Traversals.LevelOrderIsLevels | ex7.py:188-207 | level order is the tree's levels, top to bottom, each from left to right |
| Traversals.LevelOrderVisitsEachOnce | ex7.py:188-207 | level order is a permutation of the nodes and is empty iff the tree is |
| Traversals.BfsTraversal | ex7.py:188-207 | the queue loop visits exactly the level order |
| Traversals.GatherAllOwners | ex7.py:323-328 | appending a subtree's owners to `arr` extends it by the subtree's in-order sequence |
| Report.NotKeyLessTransitive | ex7.py:341 | "not smaller" under the key (pokedex size, lower-cased name) is transitive |
| Report.KeyLessTotal | ex7.py:341 | owners with distinct lower-cased names are strictly ordered by the key |
| Report.SortByKey | ex7.py:341 | the sort returns a permutation of its input that is sorted by the key (pokedex size, lower-cased name) |
| Report.InsertByKeyTies | ex7.py:341 | inserting an owner puts it ahead of every owner with the same key and leaves their order alone |
| Report.SortByKeyStable | ex7.py:341 | the sort is stable, as `list.sort` is: for every key, the owners with that key appear in the result in their input order |
| Report.SortedUnique | ex7.py:341 | with unique lower-cased names there is only one sorted arrangement of a collection of owners |
| Report.RegistryNamesDistinct | ex7.py:134-146 | a tree ordered by lower-cased names has pairwise distinct lower-cased names |
| Report.SortOwnersByNumPokemon | ex7.py:330-341 | the report is sorted by the key and is a permutation of the registry's owners. It is empty iff the registry is. Owners with equal keys stay in in-order, as the stable sort leaves them. On a valid registry it is the sorted in-order sequence |
| Report.ReportDetermined | ex7.py:330-341 | every sorted permutation of a valid registry's owners is the report, so how the sort breaks ties does not matter |
| Pokedex.HasId | ex7.py:259-262 | the scan finds an entry with the ID iff the pokedex holds one |
| Pokedex.AppendKeepsUnique | ex7.py:259-265 | appending an entry whose ID is not held keeps IDs unique |
| Pokedex.AddPokemonToOwner | ex7.py:254-267 | the pokedex is unchanged when the ID is not in the catalog or already held; otherwise the catalog entry is appended at the end. Unique IDs stay unique |
| Pokedex.FirstMatch | ex7.py:272-273 | the position of the first entry whose stripped, lower-cased name matches, with no match before it, or -1 when none matches |
| Pokedex.ScanForName | ex7.py:272-273 | the loop stops at the first matching position, or gives -1 |
| Pokedex.RemoveAt | ex7.py:274 | removal keeps every other entry, in order |
| Pokedex.RemoveAtPermutes | ex7.py:274 | removal takes away exactly the one removed entry |
| Pokedex.RemoveAtKeepsUnique | ex7.py:274 | removal keeps IDs unique |
| Pokedex.ReleasePokemonByName | ex7.py:269-279 | an entry is released iff some name matches. Only the first match is removed, and with no match nothing changes. Unique IDs stay unique |
| Pokedex.EvolvePokemonByName | ex7.py:282-316 | nothing changes with no match, with "Can Evolve" exactly "FALSE", or with no catalog entry for ID+1. Otherwise the original is removed and the ID+1 entry is appended unless already held. Unique IDs stay unique |
| Pokedex.EvolveSize | ex7.py:300-311 | a completed evolution swaps the original for its successor and keeps the pokedex size |
| Pokedex.Keeps | ex7.py:390-406 | the six conditions of the filter menu; "All of them" and a blank name prefix keep every entry |
| Pokedex.KeepsIgnoresCase | ex7.py:391-404 | the type and prefix filters treat input typed in capitals exactly as the same input in small letters |
| Pokedex.Filter | ex7.py:390-406 | a filter's result is no longer than the pokedex |
| Pokedex.FilterCounts | ex7.py:390-406 | every entry the criterion keeps occurs in the result as often as in the pokedex, and no other entry occurs |
| Pokedex.FilterConcat | ex7.py:390-406 | filtering distributes over concatenation, so the original order is kept |
| Pokedex.FilterIdempotent | ex7.py:390-406 | filtering twice by one criterion is filtering once |
| Pokedex.FilterEverything | ex7.py:405-406 | "All of them" shows the whole pokedex |
| Registry.WithPokedex | ex7.py:442-448 | writing an owner's pokedex back keeps the number of owners |
| Registry.WithPokedexKeys | ex7.py:442-448 | writing a pokedex back changes no key |
| Registry.WithPokedexOrdered | ex7.py:442-448 | writing a pokedex back keeps the tree ordered |
| Registry.WithPokedexFound | ex7.py:425-448 | after the write-back, lookup finds the same owner with the new pokedex |
| Registry.WithPokedexOthers | ex7.py:442-448 | owners under other lower-cased names are untouched |
| Registry.WithPokedexFindOthers | ex7.py:425-448 | lookups of every other name give what they gave before |
| Registry.Registry.CreateOwner | ex7.py:93-117 | an existing name (stripped, lower-cased, checked by the menu at lines 472-475) is refused. Then a choice other than 1-3 is refused, and a catalog without the chosen position stops the creation (the IndexError); none of these changes the tree. Otherwise the owner with the stripped name and the starter is inserted by lower-cased name. The owners grow by exactly that owner, lookup finds it, and the tree stays ordered |
| Registry.Registry.DeleteOwner | ex7.py:486-491 | an owner is deleted iff lookup finds the stripped name, and the new tree is exactly what `delete_owner_bst` builds (including successor promotion), which the level-order, pre-order and post-order listings show. In-order loses exactly that owner, the keys lose exactly that key, and the tree stays ordered |
| Registry.Registry.UpdatePokedex | ex7.py:425-448 | for a found owner the new tree is the old one with that owner's pokedex replaced, and lookup gives the owner with the new pokedex. Every other lookup and all keys are unchanged, and an unknown name changes nothing |

## Left out

- Console input and output are not modelled. This covers `input`, every `print`, the
  retry loop of `read_int_safe`, and `display_pokemon_list`. Values read from the console
  are parameters, and the traversals return sequences instead of printing.
- The menu loops are not modelled: `main_menu`, `existing_pokedex`, `print_all_owners`
  and the loop of `display_filter_sub_menu`. The main-menu branches "New Pokedex" and
  "Delete a Pokedex" are the `Registry` methods. The per-owner loop is modelled as its
  operations followed by `Registry.Registry.UpdatePokedex`.
- Opening the file and the `csv` module are not modelled; rows arrive already split into
  fields. Python's `int()` is the parameter `parseInt`, a partial function, because its
  exact syntax is a library matter.
- `Lower`/`Upper` cover ASCII only. Python's `str.lower()` also maps non-ASCII letters.
- Dict identity, aliasing and `.copy()` are not modelled: owners and pokemon are values.
  In the program an owner node found by lookup is mutated in place. Here the new pokedex
  is written back by name (`Registry.WithPokedex`), which gives the same tree because
  lower-cased names are unique.
- Node rebinding (`root["left"] = …`) is modelled as functions returning a new tree, not
  as updates to linked objects in place.
- The in-place `list.sort` is not modelled directly. Python's stable sort is
  `Report.SortByKey`, an insertion sort, whose stability is `Report.SortByKeyStable`.
  `Report.ReportDetermined` shows that on a valid registry every sorted permutation is
  the same report, so the sorting algorithm does not matter there.
- Report.SortOwnersByNumPokemon: for a tree that is not ordered by lower-cased names,
  equal keys can occur. The report is then stated to be a sorted permutation whose
  owners with equal keys stay in in-order; that these facts admit only one sequence
  is not proved as a lemma of its own.
- The `Registry` class uses the corrected `OwnerTree.InsertLower`. The as-written
  `OwnerTree.Insert` is kept and analysed on its own (see "## Findings").

## Findings

| source | as written | input that shows it | evidently intended | confidence | as-written member | corrected member |
|---|---|---|---|---|---|---|
| ex7.py:125-128 vs ex7.py:138-143 and ex7.py:472-474 | insertion places owners by case-sensitive `<` while lookup and the duplicate check descend by lower-cased names, so a placed owner can be unreachable by lookup | insert "alice", then "Bob" ("Bob" < "alice" puts it left); lookup "bob" goes right ("bob" > "alice") and finds nothing, so a second owner "bob" is admitted and both "Bob" and "bob" are stored | place owners by lower-cased name, the ordering lookup and deletion use, so every inserted owner is found and names stay unique case-insensitively | not executed | OwnerTree.InsertCaseMismatch | OwnerTree.InsertLowerFinds |
| ex7.py:125-128 vs ex7.py:158 and ex7.py:175-180 | the same raw-name placement lets deletion of a name that lookup finds crash: the promoted successor is deleted from the right subtree by a lower-cased descent that misses it and indexes `None` | insert "M", "A", "b", "Z" ("Z" < "b" puts "Z" left of "b"); lookup finds "M"; deleting "M" promotes "Z", then deleting "Z" from the subtree at "b" goes right ("z" > "b") to `None` and raises TypeError | place owners by lower-cased name, so that deleting any present name completes and removes exactly that owner | not executed | OwnerTree.DeletePresentCrashes | OwnerTree.DeleteRemoves |
