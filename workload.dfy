/**
 * The benchmark driver around the splay tree: filling the tree with fresh
 * keys, the replace cycles of a run, and the tear-down check of the final
 * tree. Keys come from a caller-supplied stream `draw` whose values are
 * pairwise distinct, read from a cursor; payloads come from `payload`, a
 * function of the key the driver never looks into. The target size and the
 * number of cycles are parameters.
 */
module Workload {
  import opened Wrappers
  import opened Trees
  import opened SplayTrees

  /** Why the tear-down check rejects a tree. */
  datatype TearDownError = WrongSize | NotSorted

  /** No value of the key stream repeats. */
  ghost predicate Injective(draw: nat -> int)
  {
    forall i, j :: i != j ==> draw(i) != draw(j)
  }

  /** Marking one more key of `all` as seen leaves fewer unseen. */
  lemma Shrinks(all: set<int>, seen: set<int>, k: int)
    requires k in all && k !in seen
    ensures |all - (seen + {k})| < |all - seen|
  {
    assert all - seen == (all - (seen + {k})) + {k};
  }

  /**
   * Insert a node with a key not yet in the tree: draw keys from the cursor
   * `next` on until one is absent, then insert it with its payload. Returns
   * the key and the cursor past the last key drawn.
   */
  method InsertNewNode<V>(tree: SplayTree<V>, draw: nat -> int, next: nat, payload: int -> V) returns (key: int, after: nat)
    requires tree.Valid() && Injective(draw)
    modifies tree
    ensures tree.Valid()
    ensures next < after && key == draw(after - 1)
    ensures key !in old(Keys(tree.root))
    ensures Contents(tree.root) == old(Contents(tree.root))[key := payload(key)]
    ensures Size(tree.root) == old(Size(tree.root)) + 1
    ensures tree.root.Node? && tree.root.key == key
  {
    ghost var contents := Contents(tree.root);
    ghost var size := Size(tree.root);
    ghost var seen: set<int> := {};
    key := draw(next);
    after := next + 1;
    var found := tree.Find(key);
    while found.Some?
      invariant tree.Valid() && Contents(tree.root) == contents && Size(tree.root) == size
      invariant next < after && key == draw(after - 1)
      invariant found.Some? <==> key in contents
      invariant seen <= contents.Keys
      invariant forall i :: after - 1 <= i ==> draw(i) !in seen
      decreases |contents.Keys - seen|
    {
      Shrinks(contents.Keys, seen, key);
      seen := seen + {key};
      key := draw(after);
      after := after + 1;
      found := tree.Find(key);
    }
    tree.Insert(key, payload(key));
  }

  /** Build a tree of `size` nodes by inserting fresh keys one at a time. */
  method SplaySetup<V>(size: nat, draw: nat -> int, payload: int -> V) returns (tree: SplayTree<V>, next: nat)
    requires Injective(draw)
    ensures fresh(tree) && tree.Valid() && Size(tree.root) == size
  {
    tree := new SplayTree<V>();
    next := 0;
    for i := 0 to size
      invariant tree.Valid() && Size(tree.root) == i
    {
      var key;
      key, next := InsertNewNode(tree, draw, next, payload);
    }
  }

  /**
   * One replace cycle of a run: insert a fresh key, then remove the greatest
   * key below it, or the new key itself when there is none. The removal
   * always succeeds, so the tree ends at its old size, holding the old
   * entries plus the new one minus the removed one.
   */
  method SplayCycle<V>(tree: SplayTree<V>, draw: nat -> int, next: nat, payload: int -> V)
    returns (key: int, removed: Result<Tree<V>, TreeError>, after: nat)
    requires tree.Valid() && Injective(draw)
    modifies tree
    ensures tree.Valid()
    ensures next < after && key !in old(Keys(tree.root))
    ensures removed.Success? && removed.value.Node?
    ensures (exists x :: x in old(Keys(tree.root)) && x < key) ==>
      IsGreatestBelow(removed.value.key, old(Keys(tree.root)), key)
    ensures (forall x :: x in old(Keys(tree.root)) ==> key < x) ==> removed.value.key == key
    ensures Contents(tree.root) == old(Contents(tree.root))[key := payload(key)] - {removed.value.key}
    ensures Size(tree.root) == old(Size(tree.root))
  {
    ghost var keys := Keys(tree.root);
    key, after := InsertNewNode(tree, draw, next, payload);
    ghost var inserted := Contents(tree.root);
    assert Keys(tree.root) == keys + {key};
    var greatest := tree.FindGreatestLessThan(key);
    if greatest.None? {
      removed := tree.Remove(key);
    } else {
      removed := tree.Remove(greatest.value.key);
      assert greatest.value.key in keys;
    }
  }

  /** A run: `cycles` replace cycles, after which the tree has its original size. */
  method SplayRun<V>(tree: SplayTree<V>, cycles: nat, draw: nat -> int, next: nat, payload: int -> V) returns (after: nat)
    requires tree.Valid() && Injective(draw)
    modifies tree
    ensures tree.Valid() && Size(tree.root) == old(Size(tree.root))
    ensures next <= after
  {
    after := next;
    for i := 0 to cycles
      invariant tree.Valid() && Size(tree.root) == old(Size(tree.root))
      invariant next <= after
    {
      var key, removed;
      key, removed, after := SplayCycle(tree, draw, after, payload);
    }
  }

  /**
   * The tear-down check: the exported keys must number `expected` and must
   * strictly increase. It passes exactly on a search tree of the expected
   * size, and reports the wrong size first.
   */
  method SplayTearDown<V>(tree: SplayTree<V>, expected: nat) returns (outcome: Outcome<TearDownError>)
    ensures outcome == Fail(WrongSize) <==> Size(tree.root) != expected
    ensures outcome == Pass <==> Size(tree.root) == expected && tree.Valid()
  {
    var keys := tree.ExportKeys();
    var length := |keys|;
    if length != expected {
      return Fail(WrongSize);
    }
    var i := 0;
    while i + 1 < length
      invariant i == 0 || i < length
      invariant forall a, b :: 0 <= a < b <= i ==> keys[a] < keys[b]
    {
      if keys[i] >= keys[i + 1] {
        return Fail(NotSorted);
      }
      i := i + 1;
    }
    return Pass;
  }

  /**
   * The whole benchmark on a fresh tree: set up `size` nodes, run `cycles`
   * replace cycles, and tear down. The tear-down check always passes.
   */
  method SplayBenchmark<V>(size: nat, cycles: nat, draw: nat -> int, payload: int -> V) returns (outcome: Outcome<TearDownError>)
    requires Injective(draw)
    ensures outcome == Pass
  {
    var tree, next := SplaySetup(size, draw, payload);
    next := SplayRun(tree, cycles, draw, next, payload);
    outcome := SplayTearDown(tree, size);
  }
}
