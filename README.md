# Splay tree benchmark, modelled in Dafny

This project models the core of `splay.py`, a benchmark that keeps a large splay tree under churn. The tree there is a mutable binary search tree without parent links. Every access operation (insert, remove, find, find_greatest_less_than) on a non-empty tree goes through one top-down splay, `_splay(key)`, which works with a dummy header node; `is_empty`, `find_max` and `export_keys` do not splay. Around the tree sit three more pieces:

- a driver that fills the tree with fresh keys, runs replace cycles (insert a fresh key, then remove its predecessor or the key itself), and checks the exported keys at tear-down;
- Robert Jenkins' 32-bit integer hash, stepped from the seed 49734321: the key source the driver was meant to use; as written the driver does not draw from it (see below);
- a payload generator whose output the tree never inspects.

The project has six modules:

- `Wrappers` (`wrappers.dfy`): the `Option`, `Result` and `Outcome` types.
- `Trees` (`trees.dfy`): the value model of the tree. `Tree<V>` is the node graph as a datatype. The specification functions are:
  - `Keys`, the key set;
  - `Contents`, the key-to-value map;
  - `Flatten`, the in-order entries;
  - `Size`;
  - `IsBST`;
  - `InOrderKeys`.

  The lemmas tie them together. Search-tree order is exactly an ascending in-order walk. The in-order keys are exactly the key set, one per node.
- `SplayTrees` (`splay_tree.dfy`): the tree object itself. `SplayTree<V>` has the one field `root: Tree<V>`, which its methods reassign as `_root` is reassigned. `Splay` is the source's loop:
  - The L and R chains under the dummy node are sequences of frames. Element 0 of a chain is the node that the `left`/`right` variable points at.
  - The rotations and links are lemmas about the loop invariant `SplayChains`.
  - The final assembly is `AssembleSplayed`.

  `Insert`, `Remove`, `Find`, `FindMax`, `FindGreatestLessThan`, `ExportKeys` and `Traverse` (`Node._traverse` with the appending callback) are proved against `Keys`, `Contents`, `Flatten` and `IsBST`.
- `KeyHash` (`key_hash.dfy`): `generate_key` in `bv32`. Every `& 0xffffffff` of the source is the wrap-around of `bv32` arithmetic.
  - `MixLine` is the six mixing lines, and `HashStep` is one round.
  - `SeedAfter(n)` is the state after `n` rounds.
  - `Draw(i)` is the i-th 28-bit numerator.
  - The class `KeyGenerator` with `Next` is the running generator object.
  - `GenerateKeys` is a loop that produces the stream's prefix.
- `Workload` (`workload.dfy`): `insert_new_node`, `splay_setup`, `splay_run`, `splay_tear_down` and the top-level sequence of the three. The target size and the cycle count are parameters instead of module constants.
- `Scenarios` (`scenario.dfy`): inserts 5, 3, 8, 1 and 4, then runs export, find, predecessor search and removal. The value of every step is fixed in the contract.

Three things the code does that are easy to misread:

- **Keys in the driver.** `insert_new_node` calls `generate_key()` (splay.py:85), and that call creates a new generator object rather than drawing the next number of one stream. So the keys the driver inserts are not hash values. The driver is therefore modelled with an abstract key stream `draw: nat -> int` whose values are pairwise distinct, read from a cursor. It does not consume `KeyHash`'s stream.
- **The range of the yielded value.** A state whose low 28 bits are zero has numerator 0, so the quotient lies in [0, 1).
- **The exception type.** The failure of `remove` is `KeyError('Key not found: ' + key)`, which for a non-string key raises a `TypeError` while building the message. Both are a failure; the model returns `Failure(KeyNotFound(key))`.

## Model

| member | source | states |
|---|---|---|
| SplayTrees.SplayTree.constructor | splay.py:130-131 | a new tree is empty and in search-tree order |
| SplayTrees.SplayTree.IsEmpty | splay.py:133-134 | the tree is empty exactly when it holds no key |
| SplayTrees.SplayTree.Splay | splay.py:215-263 | the in-order entries (so keys, map, size and search-tree order) are unchanged; an empty tree stays empty; the new root holds the key of the last node on the old tree's search path for `key` (`SearchEnd`), and no key lies between it and `key`, so it holds `key` whenever the tree does |
| SplayTrees.SearchEnd | splay.py:225-257 | (function, no contract) the key where a plain binary search for `key` stops: left while `key` is smaller and a left child exists, right in the mirror case, stopping at `key` itself |
| SplayTrees.RotationKeepsEntries | splay.py:229-234 | a single rotation changes the shape and keeps the in-order entries |
| SplayTrees.LinkRight | splay.py:237-240 | linking `current` into the R chain and stepping left keeps the loop invariant: the chains plus `current` walk the original entries, the L chain lies below `key` and the R chain above it |
| SplayTrees.LinkLeft | splay.py:252-255 | the mirror link into the L chain keeps the same invariant |
| SplayTrees.AssembleLeft | splay.py:259-261 | (function, no contract) the L tree under the dummy node: the chain's nodes linked through their right links, the last one linked taking `hole` (the final node's left subtree) as its right child |
| SplayTrees.AssembleRight | splay.py:260-262 | (function, no contract) the mirror R tree: linked through left links, the last one linked taking `hole` (the final node's right subtree) as its left child |
| SplayTrees.AssembleLeftEntries | splay.py:259-261 | the assembled L tree walks the chain's nodes with the subtrees they kept, in order, and then the hole's entries |
| SplayTrees.AssembleRightEntries | splay.py:260-262 | the assembled R tree walks the hole's entries and then the chain's nodes with the subtrees they kept |
| SplayTrees.AssembleEntries | splay.py:259-262 | the reassembled tree walks the L chain, the final node's subtree and the R chain in order |
| SplayTrees.AssembleSplayed | splay.py:258-263 | when the loop stops (it found `key`, or it has no child towards `key`), the assembled tree has the original entries, is a search tree and has the node nearest to `key` at the root |
| SplayTrees.SplayTree.Insert | splay.py:136-155 | the new root holds `key`; on a present key the entries and the original value are kept; on a new key the map gains exactly `key` with `value`, the size grows by one and search-tree order holds |
| SplayTrees.GraftAbove | splay.py:146-149 | after splaying, a key above the root takes the root and its left subtree as its left child and the root's right subtree as its right child; the result is a search tree whose map is the old map updated at `key` |
| SplayTrees.GraftBelow | splay.py:150-153 | the mirror graft below the root, with the same result |
| SplayTrees.SplayTree.Remove | splay.py:157-175 | fails exactly when `key` is absent (empty tree included), with the entries unchanged; otherwise it returns the node of `key` with its value, the map loses exactly `key`, the size drops by one, search-tree order holds, and the new root holds the greatest key below `key` when there is one; on failure in a non-empty tree the root holds the search path's last key |
| SplayTrees.RemoveWithoutLeft | splay.py:166-167 | without a left subtree, the right subtree is the tree without the removed key, and all its keys are above it |
| SplayTrees.JoinKeepsOrder | splay.py:168-174 | a left subtree whose keys are all below `key`, splayed on `key`, has a root without a right child; hanging a right subtree whose keys are all above `key` there gives a search tree holding both maps, of both sizes, with the greatest key below `key` at the root |
| SplayTrees.JoinAfterRemove | splay.py:168-174 | re-splaying the old left subtree on the removed key leaves its root without a right child; attaching the old right subtree there gives the old map minus the key, in search-tree order, with the greatest key below the removed one at the root |
| SplayTrees.SplayTree.Find | splay.py:177-181 | returns a node exactly when `key` is present, and then that node is the root and holds `key` and its value; on a miss in a non-empty tree the root holds the search path's last key; the entries never change |
| SplayTrees.SplayTree.FindMax | splay.py:183-191 | none exactly for an empty tree; otherwise the right-most node of the start subtree (or the tree), with no right child and, in a search tree, that subtree's largest key |
| Trees.RightmostIsMax | splay.py:188-191 | the right-most node of a search tree holds its largest key and that key's value |
| SplayTrees.SplayTree.FindGreatestLessThan | splay.py:193-207 | returns a node exactly when some key is below `key`, and then the node holds the greatest such key and its value; in a non-empty tree the root ends at the search path's last key; the entries never change |
| SplayTrees.GreatestBelowAfterSplay | splay.py:199-203 | after splaying, a root below `key` holds the greatest key below it; otherwise the keys below `key` are exactly those of the left subtree; and some key is below `key` exactly when the root is or the left subtree is not empty |
| SplayTrees.MaxOfLeftBelow | splay.py:204-205 | when the root is not below `key`, the maximum of its left subtree is the greatest key below `key` |
| SplayTrees.SplayTree.ExportKeys | splay.py:209-213 | the keys in in-order, one per node, exactly the tree's key set; they strictly increase exactly when the tree is in search-tree order |
| SplayTrees.Traverse | splay.py:273-280 | the walk (a loop down the right spine, recursing into each left child) appends exactly the in-order keys of the subtree to what was collected |
| Trees.BstIffAscending | splay.py:112-115 | search-tree order holds exactly when the in-order entries strictly ascend by key |
| Trees.InOrderKeysMembers | splay.py:209-213 | the in-order keys number one per node and are exactly the key set |
| Trees.InOrderKeysSorted | splay.py:101-115 | the in-order keys strictly increase exactly when the tree is a search tree, and then no key repeats |
| Trees.IncreasingUnique | splay.py:209-213 | two strictly increasing sequences with the same members are equal, so the key set of a search tree determines what `export_keys` returns |
| KeyHash.Ror | splay.py:66-67 | (function, no contract) the source's `ror`: the bits shifted out on the right come back in on the left, written as in the source with the 32-bit mask as `bv32` wrap |
| KeyHash.MixLine | splay.py:72-77 | (function, no contract) mixing line 1 to 6 of a round, with the source's constants and shift widths, each wrapping modulo 2^32 |
| KeyHash.Mix | splay.py:72-77 | (function, no contract) the state after the first n mixing lines of a round, applied in the source's order |
| KeyHash.HashStep | splay.py:71-77 | (function, no contract) one pass of the `while True` body before the `yield`: all six lines |
| KeyHash.SeedAfter | splay.py:64-77 | (function, no contract) the value of `seed` after n rounds from 49734321; it depends on n alone, so the stream is one fixed sequence |
| KeyHash.RorIsRotation | splay.py:66-67 | at the two widths the hash uses, `ror` is the 32-bit right rotation |
| KeyHash.Numerator | splay.py:78 | the yielded numerator is below 2^28, so the quotient lies in [0, 1) |
| KeyHash.Draw | splay.py:71-78 | the i-th number yielded is the numerator of the state after i + 1 rounds, below 2^28 |
| KeyHash.Draws | splay.py:71-78 | the first n yielded numbers, each the corresponding draw and below 2^28 |
| KeyHash.FirstDraws | splay.py:64-78 | the initial seed fixes the states and numbers of the first three rounds |
| KeyHash.KeyGenerator.constructor | splay.py:64 | a new generator starts at the seed 49734321 with nothing drawn |
| KeyHash.KeyGenerator.Next | splay.py:71-78 | each call yields the next number of the one stream fixed by the seed, below 2^28 |
| KeyHash.GenerateKeys | splay.py:63-78 | the rounds run in a loop yield exactly the stream's first `count` numbers |
| Workload.InsertNewNode | splay.py:81-91 | retries drawn keys until one is absent, then inserts it with its payload: the map gains exactly that key, the size grows by one, the key is at the root, and the retry loop terminates |
| Workload.SplaySetup | splay.py:94-98 | a new tree of exactly the target size, in search-tree order |
| Workload.SplayCycle | splay.py:120-126 | a fresh key is inserted and then its predecessor, or the key itself when it has none, is removed; the removal succeeds, the map is the old one plus the new entry minus the removed key, and the size is unchanged |
| Workload.SplayRun | splay.py:118-126 | any number of cycles leave the tree in search-tree order and at its size |
| Workload.SplayTearDown | splay.py:101-115 | reports a wrong size exactly when the size is not the expected one, and passes exactly when the size is right and the tree is a search tree |
| Workload.SplayBenchmark | splay.py:283-286 | setup, run and tear-down in sequence: the tear-down always passes |
| Scenarios.InsertAbsent | splay.py:136-155 | inserting an absent key updates the tree's map at that key |
| Scenarios.ThreeInserted | splay.py:136-155 | inserting 5, 3, 8 into an empty tree gives the map of those three entries |
| Scenarios.FiveInserted | splay.py:136-155 | inserting 5, 3, 8, 1, 4 gives the map of those five entries |
| Scenarios.FiveKeys | splay.py:136-213 | on that tree, export gives [1, 3, 4, 5, 8], `find(8)` leaves 8 at the root, the greatest key below 4 is 3, `remove(3)` returns 3's node, and export then gives [1, 4, 5, 8] |

## Left out

- `runner.py` and `util.py`: process, timing and reporting plumbing.
- The float division at splay.py:78: only the integer numerator is modelled. Keys in the tree are `int`, since the tree needs nothing beyond a strict total order.
- `generate_payload_tree` (splay.py:50-60): memory filler the tree never inspects. Values are an uninterpreted type parameter `V`, and the driver takes the payload as a function of the key.
- Garbage collection and the amortized logarithmic cost of splaying: neither is stated by the code.
- Node identity and aliasing. Nodes are values, so a node returned by `find`, `find_max`, `find_greatest_less_than` or `remove` is a snapshot of that subtree, not a live object that later operations mutate. The dummy node that stands for both chain heads becomes two sequences.
- `Node._traverse` takes an arbitrary callback; the model fixes it to the one `export_keys` passes, which appends the node's key.
- Workload.InsertNewNode: the key stream is assumed never to repeat a value (`Injective`). That assumption is what makes the retry loop terminate. The source's keys are generator objects compared by Python 2's object ordering, which is not modelled.
- The module constants (splay.py:45-47) become the parameters `size` and `cycles`. `__main__` (splay.py:283-286) becomes `SplayBenchmark`, with the timing harness left out.
- Workload.SplayBenchmark: `run_benchmark` (util.py:17-22) calls `splay_run` n times (100 by default) before the tear-down; the model calls `SplayRun` once. Since `SplayRun` works for any `cycles`, n runs of 1500 cycles each are covered by one call with `cycles` = n × 1500. The timing of each run and the printing are not modelled.
- The exact exception type of `remove` and of the tear-down checks: failures are `Result`/`Outcome` values.
- KeyHash.RorIsRotation: `Ror` has no contract of its own, and this lemma proves it equal to the 32-bit right rotation only at the widths 16 and 19 that the hash uses, not at every width.
- KeyHash.SeedAfter: "every value assigned to `seed` is below 2^32" holds by the `bv32` type rather than by a stated bound.
