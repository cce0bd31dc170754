/**
 * Binary trees with integer keys and opaque values, and the specification
 * functions the splay tree is proved against: the key set, the key-to-value
 * map, the in-order sequence of entries and the binary-search-tree order.
 */
module Trees {

  /** A node owns its key, its value and its two subtrees; `Leaf` is Python's `None`. */
  datatype Tree<V> = Leaf | Node(left: Tree<V>, key: int, value: V, right: Tree<V>)

  /** One (key, value) association, as met by an in-order walk. */
  datatype Entry<V> = Entry(key: int, value: V)

  /** The number of nodes. */
  ghost function Size<V>(t: Tree<V>): nat
  {
    match t
    case Leaf => 0
    case Node(l, _, _, r) => Size(l) + 1 + Size(r)
  }

  ghost function Keys<V>(t: Tree<V>): set<int>
  {
    match t
    case Leaf => {}
    case Node(l, k, _, r) => Keys(l) + {k} + Keys(r)
  }

  /** The map from keys to values that the tree represents. */
  ghost function Contents<V>(t: Tree<V>): (m: map<int, V>)
    ensures m.Keys == Keys(t)
  {
    match t
    case Leaf => map[]
    case Node(l, k, v, r) => Contents(l) + map[k := v] + Contents(r)
  }

  /** Every key of a left subtree is below its node's key, every key of a right subtree above. */
  ghost predicate IsBST<V>(t: Tree<V>)
  {
    match t
    case Leaf => true
    case Node(l, k, _, r) =>
      IsBST(l) && IsBST(r) &&
      (forall x :: x in Keys(l) ==> x < k) &&
      (forall x :: x in Keys(r) ==> k < x)
  }

  /** The entries in in-order (left subtree, node, right subtree): one per node. */
  ghost function Flatten<V>(t: Tree<V>): (s: seq<Entry<V>>)
    ensures |s| == Size(t)
  {
    match t
    case Leaf => []
    case Node(l, k, v, r) => Flatten(l) + [Entry(k, v)] + Flatten(r)
  }

  /** The in-order sequence of keys, as `export_keys` produces it. */
  ghost function InOrderKeys<V>(t: Tree<V>): seq<int>
  {
    KeySeq(Flatten(t))
  }

  ghost function KeySeq<V>(s: seq<Entry<V>>): (r: seq<int>)
    ensures |r| == |s| && forall i :: 0 <= i < |s| ==> r[i] == s[i].key
  {
    if s == [] then [] else [s[0].key] + KeySeq(s[1..])
  }

  ghost predicate StrictlyIncreasing(s: seq<int>)
  {
    forall i, j :: 0 <= i < j < |s| ==> s[i] < s[j]
  }

  ghost predicate Ascending<V>(s: seq<Entry<V>>)
  {
    forall i, j :: 0 <= i < j < |s| ==> s[i].key < s[j].key
  }

  ghost function KeysOf<V>(s: seq<Entry<V>>): set<int>
  {
    set i | 0 <= i < |s| :: s[i].key
  }

  /** The map an entry sequence denotes; a later entry wins over an earlier one. */
  ghost function MapOf<V>(s: seq<Entry<V>>): map<int, V>
  {
    if s == [] then map[] else MapOf(s[..|s| - 1])[s[|s| - 1].key := s[|s| - 1].value]
  }

  lemma KeysOfAppend<V>(a: seq<Entry<V>>, b: seq<Entry<V>>)
    ensures KeysOf(a + b) == KeysOf(a) + KeysOf(b)
  {
    var ab := a + b;
    forall x | x in KeysOf(a) + KeysOf(b) ensures x in KeysOf(ab) {
      if x in KeysOf(a) {
        var i :| 0 <= i < |a| && a[i].key == x;
        assert ab[i] == a[i];
      } else {
        var j :| 0 <= j < |b| && b[j].key == x;
        assert ab[|a| + j] == b[j];
      }
    }
    forall x | x in KeysOf(ab) ensures x in KeysOf(a) + KeysOf(b) {
      var i :| 0 <= i < |ab| && ab[i].key == x;
      if i < |a| {
        assert a[i] == ab[i];
      } else {
        assert b[i - |a|] == ab[i];
      }
    }
  }

  /** The key set of a tree is the set of keys of its in-order entries. */
  lemma {:induction false} KeysFlatten<V>(t: Tree<V>)
    ensures Keys(t) == KeysOf(Flatten(t))
  {
    match t
    case Leaf =>
    case Node(l, k, v, r) =>
      KeysFlatten(l);
      KeysFlatten(r);
      KeysOfAppend(Flatten(l), [Entry(k, v)]);
      KeysOfAppend(Flatten(l) + [Entry(k, v)], Flatten(r));
      assert KeysOf([Entry(k, v)]) == {k} by {
        assert [Entry(k, v)][0].key == k;
      }
  }

  lemma {:induction false} MapOfAppend<V>(a: seq<Entry<V>>, b: seq<Entry<V>>)
    ensures MapOf(a + b) == MapOf(a) + MapOf(b)
    decreases |b|
  {
    if b == [] {
      assert a + b == a;
    } else {
      var b', e := b[..|b| - 1], b[|b| - 1];
      assert (a + b)[..|a + b| - 1] == a + b';
      assert (a + b)[|a + b| - 1] == e;
      MapOfAppend(a, b');
      assert MapOf(a + b) == (MapOf(a) + MapOf(b'))[e.key := e.value];
      assert MapOf(b) == MapOf(b')[e.key := e.value];
    }
  }

  /** The map a tree represents is the map its in-order entries denote. */
  lemma {:induction false} ContentsFlatten<V>(t: Tree<V>)
    ensures Contents(t) == MapOf(Flatten(t))
  {
    match t
    case Leaf =>
    case Node(l, k, v, r) =>
      ContentsFlatten(l);
      ContentsFlatten(r);
      MapOfAppend(Flatten(l), [Entry(k, v)]);
      MapOfAppend(Flatten(l) + [Entry(k, v)], Flatten(r));
      assert [Entry(k, v)][..0] == [];
      assert MapOf([Entry(k, v)]) == map[k := v];
  }

  /** An ascending sequence split around one entry: the parts are ascending and ordered. */
  lemma AscendingAround<V>(a: seq<Entry<V>>, e: Entry<V>, b: seq<Entry<V>>)
    ensures Ascending(a + [e] + b) <==>
      Ascending(a) && Ascending(b) &&
      (forall i :: 0 <= i < |a| ==> a[i].key < e.key) &&
      (forall j :: 0 <= j < |b| ==> e.key < b[j].key)
  {
    var s := a + [e] + b;
    assert forall i :: 0 <= i < |a| ==> s[i] == a[i];
    assert s[|a|] == e;
    assert forall j :: 0 <= j < |b| ==> s[|a| + 1 + j] == b[j];
    if Ascending(s) {
      forall i, j | 0 <= i < j < |b| ensures b[i].key < b[j].key {
        assert s[|a| + 1 + i].key < s[|a| + 1 + j].key;
      }
      forall i | 0 <= i < |a| ensures a[i].key < e.key {
        assert s[i].key < s[|a|].key;
      }
      forall j | 0 <= j < |b| ensures e.key < b[j].key {
        assert s[|a|].key < s[|a| + 1 + j].key;
      }
    }
  }

  /** In an ascending sequence the entries before `e` have smaller keys and those after larger. */
  lemma AscendingSides<V>(a: seq<Entry<V>>, e: Entry<V>, b: seq<Entry<V>>)
    requires Ascending(a + [e] + b)
    ensures forall i :: 0 <= i < |a| ==> a[i].key < e.key
    ensures forall j :: 0 <= j < |b| ==> e.key < b[j].key
  {
    var s := a + [e] + b;
    assert s[|a|] == e;
    forall i | 0 <= i < |a| ensures a[i].key < e.key {
      assert s[i] == a[i];
    }
    forall j | 0 <= j < |b| ensures e.key < b[j].key {
      assert s[|a| + 1 + j] == b[j];
    }
  }

  /** Binary-search-tree order is exactly an ascending in-order walk. */
  lemma {:induction false} BstIffAscending<V>(t: Tree<V>)
    ensures IsBST(t) <==> Ascending(Flatten(t))
  {
    match t
    case Leaf =>
    case Node(l, k, v, r) =>
      BstIffAscending(l);
      BstIffAscending(r);
      KeysFlatten(l);
      KeysFlatten(r);
      var fl, fr := Flatten(l), Flatten(r);
      AscendingAround(fl, Entry(k, v), fr);
      assert (forall x :: x in Keys(l) ==> x < k) <==> (forall i :: 0 <= i < |fl| ==> fl[i].key < k) by {
        if forall i :: 0 <= i < |fl| ==> fl[i].key < k {
          forall x | x in Keys(l) ensures x < k {
            var i :| 0 <= i < |fl| && fl[i].key == x;
          }
        } else {
          var i :| 0 <= i < |fl| && !(fl[i].key < k);
          assert fl[i].key in KeysOf(fl);
        }
      }
      assert (forall x :: x in Keys(r) ==> k < x) <==> (forall j :: 0 <= j < |fr| ==> k < fr[j].key) by {
        if forall j :: 0 <= j < |fr| ==> k < fr[j].key {
          forall x | x in Keys(r) ensures k < x {
            var j :| 0 <= j < |fr| && fr[j].key == x;
          }
        } else {
          var j :| 0 <= j < |fr| && !(k < fr[j].key);
          assert fr[j].key in KeysOf(fr);
        }
      }
  }

  /**
   * Two trees with the same in-order entries have the same keys, map and size,
   * and one is a binary search tree exactly when the other is.
   */
  lemma SameEntries<V>(t: Tree<V>, u: Tree<V>)
    requires Flatten(t) == Flatten(u)
    ensures Keys(t) == Keys(u) && Contents(t) == Contents(u) && Size(t) == Size(u)
    ensures IsBST(t) <==> IsBST(u)
  {
    KeysFlatten(t);
    KeysFlatten(u);
    ContentsFlatten(t);
    ContentsFlatten(u);
    BstIffAscending(t);
    BstIffAscending(u);
  }

  /** In a binary search tree no key repeats, so the key set has one key per node. */
  lemma {:induction false} BstKeyCount<V>(t: Tree<V>)
    requires IsBST(t)
    ensures |Keys(t)| == Size(t)
  {
    match t
    case Leaf =>
    case Node(l, k, _, r) =>
      BstKeyCount(l);
      BstKeyCount(r);
      assert Keys(l) !! {k};
      forall x | x in Keys(r) ensures x !in Keys(l) + {k} {
        assert k < x;
      }
      assert (Keys(l) + {k}) !! Keys(r);
  }

  /** The in-order keys are exactly the tree's keys, one per node. */
  lemma InOrderKeysMembers<V>(t: Tree<V>)
    ensures |InOrderKeys(t)| == Size(t)
    ensures forall k :: k in InOrderKeys(t) <==> k in Keys(t)
  {
    KeysFlatten(t);
    var s, f := InOrderKeys(t), Flatten(t);
    forall k ensures k in s <==> k in Keys(t) {
      if k in s {
        var i :| 0 <= i < |s| && s[i] == k;
        assert f[i].key == k;
      }
      if k in Keys(t) {
        var i :| 0 <= i < |f| && f[i].key == k;
        assert s[i] == k;
      }
    }
  }

  /**
   * The in-order keys strictly increase exactly when the tree is a binary
   * search tree, and then each key occurs once.
   */
  lemma InOrderKeysSorted<V>(t: Tree<V>)
    ensures StrictlyIncreasing(InOrderKeys(t)) <==> IsBST(t)
    ensures IsBST(t) ==> |Keys(t)| == Size(t)
  {
    BstIffAscending(t);
    if IsBST(t) {
      BstKeyCount(t);
    }
  }

  /** The in-order keys of a node: those of its left subtree, its own, those of its right subtree. */
  lemma InOrderKeysNode<V>(t: Tree<V>)
    requires t.Node?
    ensures InOrderKeys(t) == InOrderKeys(t.left) + [t.key] + InOrderKeys(t.right)
  {
    var a, b := InOrderKeys(t.left), InOrderKeys(t.right);
    assert Flatten(t) == Flatten(t.left) + [Entry(t.key, t.value)] + Flatten(t.right);
    assert InOrderKeys(t) == a + [t.key] + b;
  }

  /** The right-most node of a non-empty tree, reached by following right links only. */
  ghost function Rightmost<V>(t: Tree<V>): Tree<V>
    requires t.Node?
  {
    if t.right.Leaf? then t else Rightmost(t.right)
  }

  /**
   * The right-most node has no right child, holds the largest key of a binary
   * search tree, and holds the value the tree maps that key to.
   */
  lemma {:induction false} RightmostIsMax<V>(t: Tree<V>)
    requires t.Node? && IsBST(t)
    ensures Rightmost(t).Node? && Rightmost(t).right.Leaf?
    ensures Rightmost(t).key in Keys(t)
    ensures forall k :: k in Keys(t) ==> k <= Rightmost(t).key
    ensures Contents(t)[Rightmost(t).key] == Rightmost(t).value
  {
    if t.right.Node? {
      RightmostIsMax(t.right);
    } else {
      RootValue(t);
    }
  }

  /** A binary search tree maps its root key to the root's value. */
  lemma RootValue<V>(t: Tree<V>)
    requires t.Node? && IsBST(t)
    ensures Contents(t)[t.key] == t.value
  {
    assert t.key !in Keys(t.right);
  }

  /** `m` is the largest key of `keys` that is strictly less than `bound`. */
  ghost predicate IsGreatestBelow(m: int, keys: set<int>, bound: int)
  {
    m in keys && m < bound && forall x :: x in keys && x < bound ==> x <= m
  }

  /** Adding a fresh key `k` in the middle of a union is updating the union at `k`. */
  lemma UpdateMiddle<V>(a: map<int, V>, k: int, v: V, b: map<int, V>)
    requires k !in b
    ensures a + map[k := v] + b == (a + b)[k := v]
  {
  }

  /** Removing the middle key `k` of a union, when neither side holds `k`, leaves the sides. */
  lemma RemoveMiddle<V>(a: map<int, V>, k: int, v: V, b: map<int, V>)
    requires k !in a && k !in b
    ensures (a + map[k := v] + b) - {k} == a + b
  {
  }

  lemma UnionAssoc<V>(a: map<int, V>, b: map<int, V>, c: map<int, V>)
    ensures a + b + c == a + (b + c)
  {
  }

  /** Two strictly increasing sequences with the same elements are the same sequence. */
  lemma {:induction false} IncreasingUnique(s: seq<int>, t: seq<int>)
    requires StrictlyIncreasing(s) && StrictlyIncreasing(t)
    requires forall k :: k in s <==> k in t
    ensures s == t
    decreases |s|
  {
    if s == [] {
      assert forall k :: k !in t;
    } else {
      assert s[0] in s;
      assert s[0] in t;
      var j :| 0 <= j < |t| && t[j] == s[0];
      assert t[0] in t;
      assert t[0] in s;
      var i :| 0 <= i < |s| && s[i] == t[0];
      assert s[0] <= s[i];
      assert t[0] <= t[j];
      assert s[0] == t[0];
      forall k ensures k in s[1..] <==> k in t[1..] {
        if k in s[1..] {
          var i :| 1 <= i < |s| && s[i] == k;
          assert s[0] < s[i] && k in t;
          var j :| 0 <= j < |t| && t[j] == k;
          assert j != 0 && t[1..][j - 1] == k;
        }
        if k in t[1..] {
          var j :| 1 <= j < |t| && t[j] == k;
          assert t[0] < t[j] && k in s;
          var i :| 0 <= i < |s| && s[i] == k;
          assert i != 0 && s[1..][i - 1] == k;
        }
      }
      IncreasingUnique(s[1..], t[1..]);
      assert s == [s[0]] + s[1..] && t == [t[0]] + t[1..];
    }
  }
}
