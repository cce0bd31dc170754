/**
 * A worked run of the splay tree's operations on five keys, with what each
 * step must return fixed in the contract.
 */
module Scenarios {
  import opened Wrappers
  import opened Trees
  import opened SplayTrees

  /** One insert of a key the tree does not hold, seen through the map the tree represents. */
  method InsertAbsent(tree: SplayTree<int>, key: int, value: int)
    requires tree.Valid() && key !in Contents(tree.root)
    modifies tree
    ensures tree.Valid() && Contents(tree.root) == old(Contents(tree.root))[key := value]
  {
    tree.Insert(key, value);
  }

  /** Insert 5, 3, 8 into an empty tree, in that order. */
  method ThreeInserted() returns (tree: SplayTree<int>)
    ensures fresh(tree) && tree.Valid()
    ensures Contents(tree.root) == map[5 := 50, 3 := 30, 8 := 80]
  {
    tree := new SplayTree<int>();
    InsertAbsent(tree, 5, 50);
    InsertAbsent(tree, 3, 30);
    InsertAbsent(tree, 8, 80);
  }

  /** Insert 5, 3, 8, 1, 4 into an empty tree, in that order. */
  method FiveInserted() returns (tree: SplayTree<int>)
    ensures fresh(tree) && tree.Valid()
    ensures Contents(tree.root) == map[5 := 50, 3 := 30, 8 := 80, 1 := 10, 4 := 40]
  {
    tree := ThreeInserted();
    InsertAbsent(tree, 1, 10);
    InsertAbsent(tree, 4, 40);
  }

  /** The exported keys expected after the inserts: sorted, and exactly the keys inserted. */
  lemma AllFive()
    ensures StrictlyIncreasing([1, 3, 4, 5, 8])
    ensures forall k :: k in [1, 3, 4, 5, 8] <==> k in {5, 3, 8, 1, 4}
  {
  }

  /** The exported keys expected after removing 3. */
  lemma FourLeft()
    ensures StrictlyIncreasing([1, 4, 5, 8])
    ensures forall k :: k in [1, 4, 5, 8] <==> k in {5, 3, 8, 1, 4} - {3}
  {
  }

  /**
   * On the tree of `FiveInserted`: export the keys; find 8; look for the
   * greatest key below 4; remove 3; export the keys again.
   */
  method FiveKeys() returns (exported: seq<int>, rootAfterFind: int, below4: Option<Tree<int>>,
                             removed: Result<Tree<int>, TreeError>, remaining: seq<int>)
    ensures exported == [1, 3, 4, 5, 8]
    ensures rootAfterFind == 8
    ensures below4.Some? && below4.value.Node? && below4.value.key == 3 && below4.value.value == 30
    ensures removed.Success? && removed.value.Node? && removed.value.key == 3 && removed.value.value == 30
    ensures remaining == [1, 4, 5, 8]
  {
    var tree := FiveInserted();
    assert Keys(tree.root) == {5, 3, 8, 1, 4};
    exported := tree.ExportKeys();
    AllFive();
    IncreasingUnique(exported, [1, 3, 4, 5, 8]);

    var found := tree.Find(8);
    rootAfterFind := found.value.key;

    below4 := tree.FindGreatestLessThan(4);
    assert 3 in Keys(tree.root) && 3 < 4;

    removed := tree.Remove(3);
    assert Keys(tree.root) == {5, 3, 8, 1, 4} - {3};
    remaining := tree.ExportKeys();
    FourLeft();
    IncreasingUnique(remaining, [1, 4, 5, 8]);
  }
}
