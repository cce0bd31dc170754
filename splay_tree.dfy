/**
 * The splay tree of splay.py: a binary search tree without parent links.
 * Every access operation (insert, remove, find, find-greatest-less-than) on
 * a non-empty tree goes through one top-down splay. The tree object holds
 * the root and reassigns it; the nodes are values of `Tree<V>`.
 */
module SplayTrees {
  import opened Trees
  import opened Wrappers

  /** The failure `remove` raises when the key is not in the tree. */
  datatype TreeError = KeyNotFound(key: int)

  /**
   * A node linked into one of the two side chains of the splay, with the
   * subtree it keeps: its left subtree in the L chain, its right subtree in
   * the R chain. Its other link is the chain's hole, filled by the next link
   * or, at the end, by a child of the final node.
   */
  datatype Frame<V> = Frame(subtree: Tree<V>, key: int, value: V)

  /**
   * The L tree (the dummy node's right child) with `hole` as the right link
   * of its last node. `chain[0]` is the node linked last (the `left` variable
   * of the splay), the final element the node linked first.
   */
  function AssembleLeft<V>(chain: seq<Frame<V>>, hole: Tree<V>): Tree<V>
  {
    if chain == [] then hole
    else AssembleLeft(chain[1..], Node(chain[0].subtree, chain[0].key, chain[0].value, hole))
  }

  /** The R tree (the dummy node's left child) with `hole` as the left link of its last node. */
  function AssembleRight<V>(chain: seq<Frame<V>>, hole: Tree<V>): Tree<V>
  {
    if chain == [] then hole
    else AssembleRight(chain[1..], Node(hole, chain[0].key, chain[0].value, chain[0].subtree))
  }

  /** The in-order entries the L chain contributes, before those of its hole. */
  ghost function LeftEntries<V>(chain: seq<Frame<V>>): seq<Entry<V>>
  {
    if chain == [] then []
    else LeftEntries(chain[1..]) + Flatten(chain[0].subtree) + [Entry(chain[0].key, chain[0].value)]
  }

  /** The in-order entries the R chain contributes, after those of its hole. */
  ghost function RightEntries<V>(chain: seq<Frame<V>>): seq<Entry<V>>
  {
    if chain == [] then []
    else [Entry(chain[0].key, chain[0].value)] + Flatten(chain[0].subtree) + RightEntries(chain[1..])
  }

  /** Concatenation is associative. */
  lemma AppendAssoc<T>(a: seq<T>, b: seq<T>, c: seq<T>)
    ensures (a + b) + c == a + (b + c)
  {
  }

  /** The assembled L tree walks the chain's entries, then its hole's. */
  lemma {:induction false} AssembleLeftEntries<V>(chain: seq<Frame<V>>, hole: Tree<V>)
    ensures Flatten(AssembleLeft(chain, hole)) == LeftEntries(chain) + Flatten(hole)
    decreases |chain|
  {
    if chain != [] {
      var f := chain[0];
      var node := Node(f.subtree, f.key, f.value, hole);
      AssembleLeftEntries(chain[1..], node);
      var rest, a, h := LeftEntries(chain[1..]), Flatten(f.subtree) + [Entry(f.key, f.value)], Flatten(hole);
      assert AssembleLeft(chain, hole) == AssembleLeft(chain[1..], node);
      assert LeftEntries(chain) == rest + a;
      assert Flatten(node) == a + h;
      AppendAssoc(rest, a, h);
    }
  }

  /** The assembled R tree walks its hole's entries, then the chain's. */
  lemma {:induction false} AssembleRightEntries<V>(chain: seq<Frame<V>>, hole: Tree<V>)
    ensures Flatten(AssembleRight(chain, hole)) == Flatten(hole) + RightEntries(chain)
    decreases |chain|
  {
    if chain != [] {
      var f := chain[0];
      var node := Node(hole, f.key, f.value, f.subtree);
      AssembleRightEntries(chain[1..], node);
      var rest, a, h := RightEntries(chain[1..]), [Entry(f.key, f.value)] + Flatten(f.subtree), Flatten(hole);
      assert AssembleRight(chain, hole) == AssembleRight(chain[1..], node);
      assert RightEntries(chain) == a + rest;
      assert Flatten(node) == h + a;
      AppendAssoc(h, a, rest);
    }
  }

  /**
   * One link step on the in-order entries: the walk is `l + (a + [e] + b) + r`
   * with `e` the current node. Linking it into the L chain moves `a + [e]` to
   * the left part; every key there stays below `key` when `e`'s key is.
   */
  lemma LinkLeftEntries<V>(l: seq<Entry<V>>, a: seq<Entry<V>>, e: Entry<V>, b: seq<Entry<V>>, r: seq<Entry<V>>,
                           key: int, whole: seq<Entry<V>>)
    requires whole == l + (a + [e] + b) + r && Ascending(whole) && e.key < key
    requires forall i :: 0 <= i < |l| ==> l[i].key < key
    ensures whole == (l + a + [e]) + b + r
    ensures forall i :: 0 <= i < |l + a + [e]| ==> (l + a + [e])[i].key < key
  {
    assert whole == (l + a) + [e] + (b + r);
    AscendingSides(l + a, e, b + r);
    forall i | 0 <= i < |l + a + [e]| ensures (l + a + [e])[i].key < key {
      if i < |l| {
        assert (l + a + [e])[i] == l[i];
      } else if i < |l + a| {
        assert (l + a + [e])[i] == (l + a)[i];
      }
    }
  }

  /** The mirror image: linking `e` into the R chain moves `[e] + b` to the right part. */
  lemma LinkRightEntries<V>(l: seq<Entry<V>>, a: seq<Entry<V>>, e: Entry<V>, b: seq<Entry<V>>, r: seq<Entry<V>>,
                            key: int, whole: seq<Entry<V>>)
    requires whole == l + (a + [e] + b) + r && Ascending(whole) && key < e.key
    requires forall j :: 0 <= j < |r| ==> key < r[j].key
    ensures whole == l + a + ([e] + b + r)
    ensures forall j :: 0 <= j < |[e] + b + r| ==> key < ([e] + b + r)[j].key
  {
    assert whole == (l + a) + [e] + (b + r);
    AscendingSides(l + a, e, b + r);
    forall j | 0 <= j < |[e] + b + r| ensures key < ([e] + b + r)[j].key {
      if j == 0 {
        assert ([e] + b + r)[j] == e;
      } else if j < 1 + |b| {
        assert ([e] + b + r)[j] == (b + r)[j - 1];
      } else {
        assert ([e] + b + r)[j] == r[j - 1 - |b|];
      }
    }
  }

  /**
   * The splay loop's invariant: `current` is a node whose subtree, framed by
   * the L and R chains, still walks the original entries `whole` in order, and
   * the chains hold only keys below (L) and above (R) `key`.
   */
  ghost predicate SplayChains<V>(left: seq<Frame<V>>, current: Tree<V>, right: seq<Frame<V>>, key: int, whole: seq<Entry<V>>)
  {
    current.Node? && Ascending(whole) &&
    LeftEntries(left) + Flatten(current) + RightEntries(right) == whole &&
    (forall i :: 0 <= i < |LeftEntries(left)| ==> LeftEntries(left)[i].key < key) &&
    (forall j :: 0 <= j < |RightEntries(right)| ==> key < RightEntries(right)[j].key)
  }

  /** Linking `current` into the R chain and descending left keeps the splay loop's invariant. */
  lemma LinkRight<V>(left: seq<Frame<V>>, current: Tree<V>, right: seq<Frame<V>>, key: int, whole: seq<Entry<V>>)
    requires SplayChains(left, current, right, key, whole) && key < current.key && current.left.Node?
    ensures SplayChains(left, current.left, [Frame(current.right, current.key, current.value)] + right, key, whole)
  {
    var linked := [Frame(current.right, current.key, current.value)] + right;
    var e := Entry(current.key, current.value);
    assert linked[1..] == right;
    assert RightEntries(linked) == [e] + Flatten(current.right) + RightEntries(right);
    LinkRightEntries(LeftEntries(left), Flatten(current.left), e, Flatten(current.right), RightEntries(right), key, whole);
  }

  /** Linking `current` into the L chain and descending right keeps the splay loop's invariant. */
  lemma LinkLeft<V>(left: seq<Frame<V>>, current: Tree<V>, right: seq<Frame<V>>, key: int, whole: seq<Entry<V>>)
    requires SplayChains(left, current, right, key, whole) && current.key < key && current.right.Node?
    ensures SplayChains([Frame(current.left, current.key, current.value)] + left, current.right, right, key, whole)
  {
    var linked := [Frame(current.left, current.key, current.value)] + left;
    var e := Entry(current.key, current.value);
    assert linked[1..] == left;
    assert LeftEntries(linked) == LeftEntries(left) + Flatten(current.left) + [e];
    LinkLeftEntries(LeftEntries(left), Flatten(current.left), e, Flatten(current.right), RightEntries(right), key, whole);
  }

  /** A single rotation changes the shape, not the in-order entries. */
  lemma RotationKeepsEntries<V>(a: Tree<V>, x: int, vx: V, b: Tree<V>, y: int, vy: V, c: Tree<V>)
    ensures Flatten(Node(Node(a, x, vx, b), y, vy, c)) == Flatten(Node(a, x, vx, Node(b, y, vy, c)))
  {
    assert Flatten(Node(Node(a, x, vx, b), y, vy, c)) == Flatten(a) + [Entry(x, vx)] + Flatten(b) + [Entry(y, vy)] + Flatten(c);
  }

  /**
   * The key of the last node on the search path for `key` in a non-empty
   * tree: go left while `key` is smaller and there is a left child, right in
   * the mirror case, and stop at `key` itself.
   */
  ghost function SearchEnd<V>(t: Tree<V>, key: int): int
    requires t.Node?
  {
    if key < t.key && t.left.Node? then SearchEnd(t.left, key)
    else if t.key < key && t.right.Node? then SearchEnd(t.right, key)
    else t.key
  }

  /**
   * The root of `t` holds `key` or a key next to it: no key of the tree lies
   * between the root's key and `key` (the root's key excluded, `key`
   * included). In particular the root holds `key` if the tree does.
   */
  ghost predicate RootIsNearest<V>(t: Tree<V>, key: int)
  {
    t.Node? ==> forall k :: k in Keys(t) ==> !(t.key < k <= key) && !(key <= k < t.key)
  }

  /**
   * The splay ends with the final node at position `|Flatten(t.left)|` of an
   * ascending in-order walk, the first `below` entries (from the L chain) less
   * than `key`, the last `above` (from the R chain) greater, and the final
   * node either holding `key` or having no child on the side towards `key`.
   */
  lemma NearestFromEntries<V>(t: Tree<V>, key: int, below: nat, above: nat)
    requires t.Node? && Ascending(Flatten(t))
    requires below + above <= Size(t)
    requires forall i :: 0 <= i < below ==> Flatten(t)[i].key < key
    requires forall j :: Size(t) - above <= j < Size(t) ==> key < Flatten(t)[j].key
    requires t.key == key || (key < t.key && Size(t.left) == below) || (t.key < key && Size(t.right) == above)
    ensures RootIsNearest(t, key)
  {
    var s, p := Flatten(t), Size(t.left);
    assert s == Flatten(t.left) + [Entry(t.key, t.value)] + Flatten(t.right);
    assert s[p].key == t.key;
    KeysFlatten(t);
    forall k | k in Keys(t) ensures !(t.key < k <= key) && !(key <= k < t.key) {
      var i :| 0 <= i < |s| && s[i].key == k;
      if i < p {
        assert s[i].key < s[p].key;
      } else if i > p {
        assert s[p].key < s[i].key;
      }
    }
  }

  /** The assembled tree walks the L chain, the final node's subtree and the R chain in order. */
  lemma AssembleEntries<V>(left: seq<Frame<V>>, current: Tree<V>, right: seq<Frame<V>>)
    requires current.Node?
    ensures var t := Node(AssembleLeft(left, current.left), current.key, current.value, AssembleRight(right, current.right));
      Flatten(t) == LeftEntries(left) + Flatten(current) + RightEntries(right) &&
      Size(t.left) == |LeftEntries(left)| + Size(current.left) &&
      Size(t.right) == Size(current.right) + |RightEntries(right)|
  {
    var t := Node(AssembleLeft(left, current.left), current.key, current.value, AssembleRight(right, current.right));
    var l, e, r := LeftEntries(left), Entry(current.key, current.value), RightEntries(right);
    var a, b := Flatten(current.left), Flatten(current.right);
    AssembleLeftEntries(left, current.left);
    AssembleRightEntries(right, current.right);
    assert Flatten(t) == (l + a) + [e] + (b + r);
    assert Flatten(current) == a + [e] + b;
    Regroup(l, a, e, b, r);
  }

  /** Regrouping a five-part concatenation around its middle element. */
  lemma Regroup<T>(l: seq<T>, a: seq<T>, e: T, b: seq<T>, r: seq<T>)
    ensures (l + a) + [e] + (b + r) == l + (a + [e] + b) + r
  {
  }

  /**
   * The final assembly of the splay: hang the children of the final node
   * `current` into the holes of the two chains and the chains under it. The
   * in-order entries are those of the loop state, and when the loop stopped
   * for one of its reasons the new root is nearest to `key`.
   */
  lemma AssembleSplayed<V>(left: seq<Frame<V>>, current: Tree<V>, right: seq<Frame<V>>, key: int, whole: seq<Entry<V>>)
    requires SplayChains(left, current, right, key, whole)
    requires current.key == key || (key < current.key && current.left.Leaf?) || (current.key < key && current.right.Leaf?)
    ensures var t := Node(AssembleLeft(left, current.left), current.key, current.value, AssembleRight(right, current.right));
      Flatten(t) == whole && IsBST(t) && RootIsNearest(t, key)
  {
    var t := Node(AssembleLeft(left, current.left), current.key, current.value, AssembleRight(right, current.right));
    var l, m, r := LeftEntries(left), Flatten(current), RightEntries(right);
    AssembleEntries(left, current, right);
    BstIffAscending(t);
    forall i | 0 <= i < |l| ensures Flatten(t)[i].key < key {
      assert whole[i] == l[i];
    }
    forall j | Size(t) - |r| <= j < Size(t) ensures key < Flatten(t)[j].key {
      assert whole[j] == r[j - |l| - |m|];
    }
    NearestFromEntries(t, key, |l|, |r|);
  }

  /**
   * What `find_greatest_less_than` relies on after splaying: if the root's key
   * is below `key` it is the greatest such key; otherwise the keys below `key`
   * are exactly those of the root's left subtree.
   */
  lemma GreatestBelowAfterSplay<V>(t: Tree<V>, key: int)
    requires t.Node? && IsBST(t) && RootIsNearest(t, key)
    ensures t.key < key ==> IsGreatestBelow(t.key, Keys(t), key)
    ensures key <= t.key ==> forall x :: x in Keys(t) && x < key <==> x in Keys(t.left)
    ensures (exists k :: k in Keys(t) && k < key) <==> t.key < key || t.left.Node?
  {
    if t.key < key {
      assert t.key in Keys(t);
    } else if t.left.Node? {
      assert t.left.key in Keys(t) && t.left.key < key;
    } else {
      assert forall x :: x in Keys(t) ==> key <= x;
    }
  }

  /**
   * When the splayed root is not below `key`, the rightmost node of its left
   * subtree holds the greatest key below `key`, with that key's value.
   */
  lemma MaxOfLeftBelow<V>(t: Tree<V>, key: int)
    requires t.Node? && IsBST(t) && RootIsNearest(t, key) && key <= t.key && t.left.Node?
    ensures var m := Rightmost(t.left);
      m.Node? && IsGreatestBelow(m.key, Keys(t), key) && m.value == Contents(t)[m.key]
    ensures exists k :: k in Keys(t) && k < key
  {
    GreatestBelowAfterSplay(t, key);
    RightmostIsMax(t.left);
    var m := Rightmost(t.left);
    assert m.key !in Keys(t.right) && m.key != t.key;
    assert m.key in Keys(t);
  }

  /** A root together with its left subtree only is still ordered. */
  lemma LowerHalf<V>(r: Tree<V>)
    requires r.Node? && IsBST(r)
    ensures var lower := Node(r.left, r.key, r.value, Leaf);
      IsBST(lower) && Keys(lower) == Keys(r.left) + {r.key} &&
      Contents(lower) == Contents(r.left) + map[r.key := r.value]
  {
  }

  /** A root together with its right subtree only is still ordered. */
  lemma UpperHalf<V>(r: Tree<V>)
    requires r.Node? && IsBST(r)
    ensures var upper := Node(Leaf, r.key, r.value, r.right);
      IsBST(upper) && Keys(upper) == {r.key} + Keys(r.right) &&
      Contents(upper) == map[r.key := r.value] + Contents(r.right)
  {
  }

  /**
   * When the root nearest to `key` is below it, `key` is absent and separates
   * the root and its left subtree from the right subtree.
   */
  lemma NearestBelowKey<V>(r: Tree<V>, key: int)
    requires r.Node? && IsBST(r) && RootIsNearest(r, key) && r.key < key
    ensures key !in Keys(r)
    ensures forall x :: x in Keys(r.left) ==> x < key
    ensures forall x :: x in Keys(r.right) ==> key < x
  {
    forall x | x in Keys(r.right) ensures key < x {
      assert x in Keys(r) && r.key < x;
    }
  }

  /** The mirror of `NearestBelowKey`. */
  lemma NearestAboveKey<V>(r: Tree<V>, key: int)
    requires r.Node? && IsBST(r) && RootIsNearest(r, key) && key < r.key
    ensures key !in Keys(r)
    ensures forall x :: x in Keys(r.left) ==> x < key
    ensures forall x :: x in Keys(r.right) ==> key < x
  {
    forall x | x in Keys(r.left) ensures x < key {
      assert x in Keys(r) && x < r.key;
    }
  }

  /**
   * The graft of `insert` when `key` is above the splayed root `r`: the new
   * node takes `r` (without its right subtree) as its left child.
   */
  lemma GraftAbove<V>(r: Tree<V>, key: int, value: V)
    requires r.Node? && IsBST(r) && RootIsNearest(r, key) && r.key < key
    ensures var node := Node(Node(r.left, r.key, r.value, Leaf), key, value, r.right);
      key !in Keys(r) && IsBST(node) && Contents(node) == Contents(r)[key := value] && Size(node) == Size(r) + 1
  {
    NearestBelowKey(r, key);
    LowerHalf(r);
    GraftOrdered(Node(r.left, r.key, r.value, Leaf), key, value, r.right);
    UpdateMiddle(Contents(r.left) + map[r.key := r.value], key, value, Contents(r.right));
  }

  /** The mirror graft when `key` is below the splayed root `r`. */
  lemma GraftBelow<V>(r: Tree<V>, key: int, value: V)
    requires r.Node? && IsBST(r) && RootIsNearest(r, key) && key < r.key
    ensures var node := Node(r.left, key, value, Node(Leaf, r.key, r.value, r.right));
      key !in Keys(r) && IsBST(node) && Contents(node) == Contents(r)[key := value] && Size(node) == Size(r) + 1
  {
    NearestAboveKey(r, key);
    UpperHalf(r);
    GraftOrdered(r.left, key, value, Node(Leaf, r.key, r.value, r.right));
    UnionAssoc(Contents(r.left), map[r.key := r.value], Contents(r.right));
    UpdateMiddle(Contents(r.left), key, value, map[r.key := r.value] + Contents(r.right));
  }

  /** A key between two ordered trees makes an ordered node of them. */
  lemma GraftOrdered<V>(lo: Tree<V>, key: int, value: V, hi: Tree<V>)
    requires IsBST(lo) && IsBST(hi)
    requires forall x :: x in Keys(lo) ==> x < key
    requires forall x :: x in Keys(hi) ==> key < x
    ensures IsBST(Node(lo, key, value, hi))
  {
  }

  /**
   * `remove` when the root `s` holding the key has no left subtree: its right
   * subtree is what remains, and every key left is above the removed one.
   */
  lemma RemoveWithoutLeft<V>(s: Tree<V>)
    requires s.Node? && IsBST(s) && s.left.Leaf?
    ensures IsBST(s.right) && Contents(s.right) == Contents(s) - {s.key} && Size(s.right) == Size(s) - 1
    ensures forall x :: x in Keys(s.right) ==> s.key < x
  {
    DetachRoot(s);
    assert Contents(s.left) == map[];
  }

  /**
   * `remove` when the root `s` holding the key has a left subtree, splayed on
   * the key into `l`: `l`'s root has no right child, and hanging `s`'s right
   * subtree there leaves `s` without its root, with the greatest key below
   * the removed one at the top.
   */
  lemma JoinAfterRemove<V>(s: Tree<V>, l: Tree<V>)
    requires s.Node? && IsBST(s) && s.left.Node?
    requires l.Node? && IsBST(l) && Flatten(l) == Flatten(s.left) && RootIsNearest(l, s.key)
    ensures l.right.Leaf?
    ensures var t := Node(l.left, l.key, l.value, s.right);
      IsBST(t) && Contents(t) == Contents(s) - {s.key} && Size(t) == Size(s) - 1 &&
      IsGreatestBelow(t.key, Keys(t), s.key)
  {
    DetachRoot(s);
    SameEntries(l, s.left);
    JoinKeepsOrder(l, s.right, s.key);
  }

  /**
   * The join of `remove`: once the old left subtree `l` (all keys below `key`)
   * is splayed on `key`, its root has no right child, and the old right
   * subtree (all keys above `key`) can be attached there.
   */
  lemma JoinKeepsOrder<V>(l: Tree<V>, right: Tree<V>, key: int)
    requires l.Node? && IsBST(l) && RootIsNearest(l, key) && IsBST(right)
    requires forall x :: x in Keys(l) ==> x < key
    requires forall x :: x in Keys(right) ==> key < x
    ensures l.right.Leaf?
    ensures var t := Node(l.left, l.key, l.value, right);
      IsBST(t) && Contents(t) == Contents(l) + Contents(right) && Size(t) == Size(l) + Size(right) &&
      IsGreatestBelow(t.key, Keys(t), key)
  {
    if l.right.Node? {
      assert l.right.key in Keys(l);
      assert false;
    }
    var t := Node(l.left, l.key, l.value, right);
    assert Contents(l) == Contents(l.left) + map[l.key := l.value];
  }

  /** Removing the root key of a binary search tree leaves the union of its subtrees' maps. */
  lemma DetachRoot<V>(r: Tree<V>)
    requires r.Node? && IsBST(r)
    ensures Contents(r)[r.key] == r.value
    ensures Contents(r) - {r.key} == Contents(r.left) + Contents(r.right)
    ensures Size(r) - 1 == Size(r.left) + Size(r.right)
  {
    RootValue(r);
    assert r.key !in Keys(r.left) && r.key !in Keys(r.right);
    RemoveMiddle(Contents(r.left), r.key, r.value, Contents(r.right));
  }

  class SplayTree<V> {
    var root: Tree<V>

    /** The tree invariant: binary-search-tree order, hence no duplicate keys. */
    ghost predicate Valid()
      reads this
    {
      IsBST(root)
    }

    constructor ()
      ensures Valid() && root == Leaf
    {
      root := Leaf;
    }

    function IsEmpty(): (empty: bool)
      reads this
      ensures empty <==> Keys(root) == {}
    {
      assert root.Node? ==> root.key in Keys(root);
      root.Leaf?
    }

    /**
     * Top-down splay on `key`: the in-order entries (hence keys, values and
     * order) are unchanged, and the root becomes the last node on the search
     * path for `key`: it holds `key` when the tree does, and otherwise a key
     * next to `key`.
     */
    method Splay(key: int)
      requires Valid()
      modifies this
      ensures Valid()
      ensures Flatten(root) == old(Flatten(root))
      ensures root.Leaf? <==> old(root).Leaf?
      ensures RootIsNearest(root, key)
      ensures key in Keys(root) ==> root.key == key
      ensures old(root).Node? ==> root.key == SearchEnd(old(root), key)
    {
      if root.Leaf? {
        return;
      }
      ghost var whole := Flatten(root);
      ghost var end := SearchEnd(root, key);
      BstIffAscending(root);
      // `left` and `right` are the L and R chains hanging off the dummy node.
      var left: seq<Frame<V>> := [];
      var right: seq<Frame<V>> := [];
      var current := root;
      while true
        invariant SplayChains(left, current, right, key, whole)
        invariant SearchEnd(current, key) == end
        decreases Size(current)
      {
        if key < current.key {
          if current.left.Leaf? {
            break;
          }
          if key < current.left.key {
            // Rotate right.
            var tmp := current.left;
            RotationKeepsEntries(tmp.left, tmp.key, tmp.value, tmp.right, current.key, current.value, current.right);
            current := Node(tmp.left, tmp.key, tmp.value, Node(tmp.right, current.key, current.value, current.right));
            if current.left.Leaf? {
              break;
            }
          }
          // Link right.
          LinkRight(left, current, right, key, whole);
          right := [Frame(current.right, current.key, current.value)] + right;
          current := current.left;
        } else if key > current.key {
          if current.right.Leaf? {
            break;
          }
          if key > current.right.key {
            // Rotate left.
            var tmp := current.right;
            RotationKeepsEntries(current.left, current.key, current.value, tmp.left, tmp.key, tmp.value, tmp.right);
            current := Node(Node(current.left, current.key, current.value, tmp.left), tmp.key, tmp.value, tmp.right);
            if current.right.Leaf? {
              break;
            }
          }
          // Link left.
          LinkLeft(left, current, right, key, whole);
          left := [Frame(current.left, current.key, current.value)] + left;
          current := current.right;
        } else {
          break;
        }
      }
      // Assemble.
      AssembleSplayed(left, current, right, key, whole);
      root := Node(AssembleLeft(left, current.left), current.key, current.value, AssembleRight(right, current.right));
    }

    /**
     * Insert `key` with `value`. A key already present keeps its original
     * value and the entries are unchanged; otherwise the map gains exactly the
     * new association. Either way the node of `key` ends up at the root.
     */
    method Insert(key: int, value: V)
      requires Valid()
      modifies this
      ensures Valid()
      ensures root.Node? && root.key == key
      ensures key in old(Keys(root)) ==> Flatten(root) == old(Flatten(root)) && Contents(root) == old(Contents(root))
      ensures key !in old(Keys(root)) ==>
        root.value == value &&
        Contents(root) == old(Contents(root))[key := value] &&
        Size(root) == old(Size(root)) + 1
    {
      if root.Leaf? {
        root := Node(Leaf, key, value, Leaf);
        return;
      }
      ghost var before := root;
      Splay(key);
      SameEntries(root, before);
      if root.key == key {
        return;
      }
      var node: Tree<V>;
      if key > root.key {
        GraftAbove(root, key, value);
        node := Node(Node(root.left, root.key, root.value, Leaf), key, value, root.right);
      } else {
        GraftBelow(root, key, value);
        node := Node(root.left, key, value, Node(Leaf, root.key, root.value, root.right));
      }
      root := node;
    }

    /**
     * Remove the node of `key` and return it. On an empty tree or a missing
     * key nothing is removed and the entries are unchanged (the shape may
     * change). On success the map loses exactly `key` and, when keys below
     * `key` remain, the greatest of them is the new root.
     */
    method Remove(key: int) returns (removed: Result<Tree<V>, TreeError>)
      requires Valid()
      modifies this
      ensures Valid()
      ensures removed.Failure? <==> key !in old(Keys(root))
      ensures removed.Failure? ==> removed.error == KeyNotFound(key) && Flatten(root) == old(Flatten(root))
      ensures removed.Failure? && old(root).Node? ==> root.key == SearchEnd(old(root), key)
      ensures removed.Success? ==>
        removed.value.Node? && removed.value.key == key &&
        removed.value.value == old(Contents(root))[key] &&
        Contents(root) == old(Contents(root)) - {key} &&
        Size(root) == old(Size(root)) - 1
      ensures removed.Success? && (exists k :: k in Keys(root) && k < key) ==>
        root.Node? && IsGreatestBelow(root.key, Keys(root), key)
    {
      if root.Leaf? {
        return Failure(KeyNotFound(key));
      }
      ghost var before := root;
      Splay(key);
      SameEntries(root, before);
      if root.key != key {
        return Failure(KeyNotFound(key));
      }
      removed := Success(root);
      RootValue(root);
      if root.left.Leaf? {
        RemoveWithoutLeft(root);
        root := root.right;
      } else {
        var right := root.right;
        ghost var s := root;
        root := root.left;
        // Re-splay the old left subtree; JoinAfterRemove shows its root then has no right child.
        Splay(key);
        JoinAfterRemove(s, root);
        // Hang the old right subtree in that empty slot.
        root := Node(root.left, root.key, root.value, right);
      }
    }

    /**
     * Find `key`: a node is returned exactly when the tree holds `key`, and it
     * is then the root, holding `key` and its value. The entries never change.
     */
    method Find(key: int) returns (found: Option<Tree<V>>)
      requires Valid()
      modifies this
      ensures Valid()
      ensures Flatten(root) == old(Flatten(root)) && Contents(root) == old(Contents(root))
      ensures found.Some? <==> key in old(Keys(root))
      ensures found.Some? ==> found.value == root && root.key == key && root.value == Contents(root)[key]
      ensures old(root).Node? ==> root.key == SearchEnd(old(root), key)
    {
      if root.Leaf? {
        return None;
      }
      ghost var before := root;
      Splay(key);
      SameEntries(root, before);
      if root.key == key {
        RootValue(root);
        found := Some(root);
      } else {
        found := None;
      }
    }

    /**
     * The right-most node of `start`'s subtree, or of the whole tree when no
     * start node is given: none for an empty tree; otherwise a node without a
     * right child that holds the subtree's largest key.
     */
    method FindMax(start: Option<Tree<V>>) returns (max: Option<Tree<V>>)
      requires start.Some? ==> start.value.Node?
      ensures max.None? <==> root.Leaf?
      ensures max.Some? ==>
        var s := if start.Some? then start.value else root;
        max.value == Rightmost(s) && max.value.Node? && max.value.right.Leaf? &&
        (IsBST(s) ==> max.value.key in Keys(s) && forall k :: k in Keys(s) ==> k <= max.value.key)
    {
      if root.Leaf? {
        return None;
      }
      var current := if start.Some? then start.value else root;
      ghost var s := current;
      while current.right.Node?
        invariant current.Node? && Rightmost(current) == Rightmost(s)
        decreases Size(current)
      {
        current := current.right;
      }
      if IsBST(s) {
        RightmostIsMax(s);
      }
      return Some(current);
    }

    /**
     * The node with the largest key strictly less than `key`, or none when no
     * key of the tree is below `key`. The entries never change.
     */
    method FindGreatestLessThan(key: int) returns (greatest: Option<Tree<V>>)
      requires Valid()
      modifies this
      ensures Valid()
      ensures Flatten(root) == old(Flatten(root)) && Contents(root) == old(Contents(root))
      ensures greatest.Some? <==> exists k :: k in Keys(root) && k < key
      ensures greatest.Some? ==>
        greatest.value.Node? &&
        IsGreatestBelow(greatest.value.key, Keys(root), key) &&
        greatest.value.value == Contents(root)[greatest.value.key]
      ensures old(root).Node? ==> root.key == SearchEnd(old(root), key)
    {
      if root.Leaf? {
        return None;
      }
      // After the splay the answer is the root or the right-most node of its left subtree.
      ghost var before := root;
      Splay(key);
      SameEntries(root, before);
      GreatestBelowAfterSplay(root, key);
      if root.key < key {
        RootValue(root);
        greatest := Some(root);
      } else if root.left.Node? {
        greatest := FindMax(Some(root.left));
        MaxOfLeftBelow(root, key);
      } else {
        greatest := None;
      }
    }

    /**
     * The keys in in-order, one per node: exactly the tree's keys, and
     * strictly ascending exactly when the tree is in search-tree order.
     */
    method ExportKeys() returns (keys: seq<int>)
      ensures keys == InOrderKeys(root)
      ensures |keys| == Size(root)
      ensures forall k :: k in keys <==> k in Keys(root)
      ensures StrictlyIncreasing(keys) <==> Valid()
    {
      keys := [];
      if !IsEmpty() {
        keys := Traverse(root, keys);
      }
      InOrderKeysMembers(root);
      InOrderKeysSorted(root);
    }
  }

  /**
   * `Node._traverse` with the callback that appends the visited key to
   * `result`: walk the right spine in a loop, recursing into each left child.
   */
  method Traverse<V>(node: Tree<V>, result: seq<int>) returns (out: seq<int>)
    requires node.Node?
    ensures out == result + InOrderKeys(node)
    decreases Size(node)
  {
    out := result;
    var current := node;
    while current.Node?
      invariant Size(current) <= Size(node)
      invariant out + InOrderKeys(current) == result + InOrderKeys(node)
      decreases Size(current)
    {
      InOrderKeysNode(current);
      var left := current.left;
      if left.Node? {
        out := Traverse(left, out);
      }
      out := out + [current.key];
      current := current.right;
    }
  }
}
