# A verified model of the book catalogue's binary search tree

The repository scrapes book lists, deduplicates the books by title in an
unbalanced binary search tree, and exports the tree's in-order traversal to a
database. The tree lives in `bst.py`. It has a `Node` with `key`, `data`,
`left` and `right`, and a `BinarySearchTree` holding a `root` and offering
`insert`, `search` and `inorder`. The tree is an ordered map: `insert`
overwrites the data of an existing key, which is how the scraper keeps one
entry per title.

The project has four modules:

- `KeyOrder` (`key_order.dfy`): the key type, `string`, with the order
  Python's `<` gives on strings. That order is lexicographic by code point,
  and a proper prefix is smaller. `Less` is defined by recursion on the two
  strings, and its contract states the characterisation by the first
  position where they part. The module proves that this order is
  irreflexive, asymmetric, total and transitive. These are the facts the
  tree's three-way branches rely on.
- `TreeModel` (`tree_model.dfy`): the value a tree stands for. It defines a
  `Tree` datatype, its key set, its map `Contents`, its node count, the
  search-tree ordering `Ordered`, and the pure `Insert` and `Inorder`. It
  proves what insert and the traversal do to these.
- `Bst` (`bst.dfy`): the heap structure itself.
  - `Node` is a class with the four fields of the source.
  - `BinarySearchTree` is a class with the field `root`.
  - `InsertRecursive` updates `left`, `right` and `data` in place, as the
    source does, and `Insert` reassigns `root`.
  - The tree also keeps a ghost `shape`, a picture of the node graph as a
    datatype value. `Valid()` says the heap is that picture, no node occurs
    twice, and the keys are ordered.
  - Each operation is proved against the `TreeModel` value of the shape.
  - `Search` returns the node itself, `Node?`, with `null` for Python's
    `None`, as the source's `search` does.
- `Catalog` (`catalog.dfy`): the code in `app.py` that uses the tree.
  - A scraped row arrives with its four fields already extracted. A missing
    field is the string `"N/A"`.
  - Only rows with all four fields present are inserted.
  - The rows of several pages go into one tree.
  - The traversal becomes one record per book.
  - The module proves that the last complete row of each title wins, that
    no other title is affected, and that the export holds one record per
    title, in title order.

## Model

| member | source | states |
|---|---|---|
| KeyOrder.Less | bst.py:20-22 | Python's `<` on strings: `a < b` exactly when, at the first position where they differ, `a` has the smaller code point, or `a` is a proper prefix of `b` |
| KeyOrder.PartsAtTails | bst.py:20-22 | past an equal first character, two strings part where their tails part, one position later |
| KeyOrder.Irreflexive | bst.py:20-25 | no key is smaller than itself, so a node's own key takes the overwrite branch |
| KeyOrder.Asymmetric | bst.py:20-25 | `a < b` excludes `b < a` and `a == b`, so at most one of the three branches applies |
| KeyOrder.Trichotomy | bst.py:20-25 | any two keys are smaller, equal or larger, so the final `else` is reached exactly on an equal key |
| KeyOrder.Transitive | bst.py:20-23 | the key order is transitive, which makes an ascending traversal a sorted one |
| TreeModel.Insert | bst.py:16-27 | the pure insert: its key set is the old key set plus the inserted key, and no other |
| TreeModel.Inorder | bst.py:46-50 | the pure traversal: one pair per node, each carrying a key of the tree |
| TreeModel.SizeIsKeyCount | bst.py:16-27 | in an ordered tree the number of nodes equals the number of distinct keys: keys are unique |
| TreeModel.InsertOrdered | bst.py:20-23 | insert keeps every left-subtree key smaller and every right-subtree key larger than its node's key |
| TreeModel.InsertContents | bst.py:16-27 | insert maps the key to the new data and leaves every other key's data unchanged |
| TreeModel.InsertSize | bst.py:16-27 | a present key adds no node, and an absent key adds exactly one |
| TreeModel.InsertSpec | bst.py:16-27 | ordering, map, key set and node count after insert, together |
| TreeModel.InorderPairs | bst.py:46-50 | a pair is in the traversal if and only if it is an entry of the tree's map |
| TreeModel.InorderAscending | bst.py:46-50 | the traversal of an ordered tree has strictly ascending keys |
| TreeModel.AscendingJoin | bst.py:46-50 | a run of keys below the node's key, the node, and a run of keys above it, each ascending, form one ascending run |
| TreeModel.AscendingDistinct | bst.py:41-50 | strictly ascending keys are pairwise distinct, so the traversal has no duplicate key |
| Bst.Node.constructor | bst.py:2-6 | a new node holds the given key and data and has no children |
| Bst.NodeCount | bst.py:16-27 | a tree without shared nodes has exactly one node object per branch of its value |
| Bst.InsertNodes | bst.py:16-27 | the node count equals the tree size after insert; a present key leaves the node set as it was, and an absent key adds exactly one node |
| Bst.SearchFindsEveryNode | bst.py:32-39 | every node's key is a key of the tree, and searching for it from the root returns that very node, so no two nodes share a key |
| Bst.NodesOfKey | bst.py:24-25 | in an ordered tree whose map sends `key` to `data`, every node holding `key` holds `data` |
| Bst.InsertDone | bst.py:13-27 | after insert the new picture is ordered, has the updated map and key set, adds no node when the key was present and one node otherwise, and every node holding `key` holds `data` |
| Bst.SearchAfterInsert | bst.py:13-39 | for any ordered tree, after inserting `key` with `data` the nodes are still ordered, and searching for `key` returns a node whose key is `key` and whose data is `data` |
| Bst.BinarySearchTree.constructor | bst.py:10-11 | a new tree has no root, no nodes, an empty map and an empty traversal |
| Bst.BinarySearchTree.Insert | bst.py:13-27 | validity kept; the map is updated at `key` only; key set grows by `key`; old nodes stay and added nodes are fresh; one node more exactly when `key` was absent; no node's key changes (the frame names only `left`, `right` and `data`); every old node with another key keeps its data, and the node holding `key` holds `data` |
| Bst.BinarySearchTree.InsertRecursive | bst.py:16-27 | returns `current` when there is one and a fresh leaf otherwise; the subtree's new value is the pure insert of its old value; no node is shared; keys are never written, and only a node holding `key` gets new data |
| Bst.BinarySearchTree.Search | bst.py:29-30 | validity kept; null exactly when the key is absent; otherwise a node of the tree with that key and its data, and the only node with that key |
| Bst.BinarySearchTree.SearchRecursive | bst.py:32-39 | null exactly when the key is not in the subtree's map; otherwise a node of the subtree holding the key and its mapped data |
| Bst.BinarySearchTree.Inorder | bst.py:41-44 | validity kept; the result is the tree's traversal: strictly ascending keys, no key twice, pairs equal to the map's entries, length equal to the node count and the key count |
| Bst.BinarySearchTree.InorderRecursive | bst.py:46-50 | the result is the list built so far followed by the subtree's left, node, right traversal |
| Catalog.Step | app.py:47-48 | one row adds its title to the tree's titles when it is complete, and leaves them as they were otherwise |
| Catalog.Build | app.py:28-48 | the rows handled in order: the titles afterwards are the old titles plus those of the complete rows, and no others |
| Catalog.Export | app.py:96 | one record per node, each titled with a key of the tree |
| Catalog.BuildOrdered | app.py:47-48 | inserting the complete rows keeps the tree ordered |
| Catalog.LastWins | app.py:47-48 | the data under a title is that of the last complete row with that title |
| Catalog.Untouched | app.py:47-48 | a title that no complete row carries keeps its presence and its data |
| Catalog.BuildAppend | app.py:60-61 | handling two pages one after the other is handling their rows together |
| Catalog.RecordMembership | app.py:96 | a record is exported exactly when its title and book form a traversal pair |
| Catalog.ExportEntries | app.py:96 | the records are exactly the tree's entries, one per title, in strictly ascending title order |
| Catalog.CollectedRecords | app.py:96 | the export of a run has one record per title of a complete row, in ascending title order, each with the data of the title's last complete row |
| Catalog.LoadRow | app.py:47-48 | a complete row is inserted under its title, and any other row leaves the tree unchanged |
| Catalog.LoadRows | app.py:28-48 | the tree afterwards is the old tree with the page's rows handled in order; validity kept; added nodes are fresh |
| Catalog.LoadPages | app.py:60-61 | the pages go into the same tree one after the other |
| Catalog.CollectBooks | app.py:50-96 | a fresh tree filled from all pages exports one record per title, in ascending title order, with the last complete row's data |
| Catalog.DuneAndFoundation | bst.py:13-50 | two "Dune" rows and one "Foundation" row give the traversal `[("Dune", later data), ("Foundation", its data)]` |

## Left out

- Fetching pages, parsing HTML and extracting fields with regular expressions are not modelled. They are network I/O and calls into libraries that are not part of this model. A row enters the model with its fields already extracted.
- The database connection and inserts, the pandas cleaning, the floating-point rating normalisation, the plots and the Flask routes are not modelled. They are I/O, library calls, floating point and web plumbing. The export stops at the list of records handed to the database.
- The default `data=None` of `Node` and `insert` is not modelled. Every caller passes data. A client that wants an absent value can choose an option type for `V`.
- Python's `TypeError` on keys that cannot be compared is not modelled. Keys are strings, and the order on them is total.
- Balance, depth and running time are not modelled. The tree never rebalances, so sorted input makes it a list.
- The model has no depth limit, and it does not capture the recursion limit. In CPython a tree deeper than the interpreter's recursion limit (1000 frames by default) makes `insert`, `search` and `inorder` raise `RecursionError`; here every call returns.
- Bst.BinarySearchTree.InorderRecursive: it returns the extended list instead of appending to a list the caller shares, so the model does not capture that list's aliasing. The resulting contents are the same.
- Bst.BinarySearchTree.InorderRecursive: the test `if current` (bst.py:47) is read as `current is not None`. A node has no truth value of its own, so the two are the same. The search tests `current is None` explicitly (bst.py:33).
- Catalog.CollectBooks: assumes every page's rows arrive. In the source a failed fetch raises (app.py:19-20), and so does a page without the list table, since `find` then returns `None` (app.py:26-28). The run then ends before anything is exported (app.py:96); the model has no such failure path.
- The example where "Dune" is inserted twice uses ratings and rating counts as strings, such as "4.5" and "950000". The scraper stores the extracted text, not numbers.
