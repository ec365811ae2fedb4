/**
 * The binary search tree behind both shared-memory zones: nodes ordered by
 * (hash, length, bytes), searched and extended by a descent loop.
 */
module OrderedIndex {
  import opened ByteStrings

  /** A node stands for the C node that stores `key`; Leaf is the sentinel. */
  datatype Tree = Leaf | Node(left: Tree, key: Bytes, right: Tree)

  type Hash = Bytes -> nat

  /** memcmp(a, b, n) < 0 on two strings of one length. */
  predicate LexLess(a: Bytes, b: Bytes)
    requires |a| == |b|
  {
    a != [] && (a[0] < b[0] || (a[0] == b[0] && LexLess(a[1..], b[1..])))
  }

  /** The node order: hash first, then length, then bytes. */
  predicate Before(hash: Hash, a: Bytes, b: Bytes) {
    hash(a) < hash(b)
    || (hash(a) == hash(b) && (|a| < |b| || (|a| == |b| && LexLess(a, b))))
  }

  lemma {:induction false} LexLaws(a: Bytes, b: Bytes)
    requires |a| == |b|
    ensures a == b ==> !LexLess(a, b)
    ensures a != b ==> (LexLess(a, b) <==> !LexLess(b, a))
  {
    if a != [] {
      LexLaws(a[1..], b[1..]);
      assert a == [a[0]] + a[1..] && b == [b[0]] + b[1..];
    }
  }

  lemma {:induction false} LexTransitive(a: Bytes, b: Bytes, c: Bytes)
    requires |a| == |b| == |c| && LexLess(a, b) && LexLess(b, c)
    ensures LexLess(a, c)
  {
    if a[0] == b[0] && b[0] == c[0] {
      LexTransitive(a[1..], b[1..], c[1..]);
    }
  }

  /** Keys of one hash and length are ordered by their first differing byte; otherwise hash, then length decides. */
  lemma {:induction false} FirstDifferenceDecides(hash: Hash, a: Bytes, b: Bytes, k: nat)
    ensures hash(a) < hash(b) || (hash(a) == hash(b) && |a| < |b|) ==> Before(hash, a, b)
    ensures hash(a) == hash(b) && |a| == |b| && k < |a| && a[..k] == b[..k] && a[k] < b[k] ==> Before(hash, a, b)
  {
    if |a| == |b| && k < |a| && a[..k] == b[..k] && a[k] < b[k] { LexAt(a, b, k); }
  }

  lemma {:induction false} LexAt(a: Bytes, b: Bytes, k: nat)
    requires |a| == |b| && k < |a| && a[..k] == b[..k] && a[k] < b[k]
    ensures LexLess(a, b)
  {
    if k > 0 {
      assert a[0] == a[..k][0] == b[..k][0] == b[0];
      assert a[1..][..k - 1] == a[..k][1..] && b[1..][..k - 1] == b[..k][1..];
      LexAt(a[1..], b[1..], k - 1);
    }
  }

  /** For every hash function, even a constant one, the order is strict and total. */
  lemma BeforeTotal(hash: Hash, a: Bytes, b: Bytes)
    ensures a == b ==> !Before(hash, a, b)
    ensures a != b ==> (Before(hash, a, b) <==> !Before(hash, b, a))
  {
    if |a| == |b| { LexLaws(a, b); }
  }

  lemma BeforeTransitive(hash: Hash, a: Bytes, b: Bytes, c: Bytes)
    requires Before(hash, a, b) && Before(hash, b, c)
    ensures Before(hash, a, c)
  {
    if |a| == |b| == |c| && hash(a) == hash(b) == hash(c) { LexTransitive(a, b, c); }
  }

  ghost function Keys(t: Tree): set<Bytes> {
    if t.Leaf? then {} else Keys(t.left) + {t.key} + Keys(t.right)
  }

  /** Strictly ordered: every key is after its left and before its right subtree. */
  ghost predicate Ordered(hash: Hash, t: Tree) {
    t.Node? ==>
      && Ordered(hash, t.left) && Ordered(hash, t.right)
      && (forall k :: k in Keys(t.left) ==> Before(hash, k, t.key))
      && (forall k :: k in Keys(t.right) ==> Before(hash, t.key, k))
  }

  function Inorder(t: Tree): seq<Bytes> {
    if t.Leaf? then [] else Inorder(t.left) + [t.key] + Inorder(t.right)
  }

  ghost predicate StrictlySorted(hash: Hash, s: seq<Bytes>) {
    forall i, j :: 0 <= i < j < |s| ==> Before(hash, s[i], s[j])
  }

  lemma {:induction false} InorderKeys(t: Tree)
    ensures forall k :: k in Inorder(t) <==> k in Keys(t)
  {
    if t.Node? {
      InorderKeys(t.left);
      InorderKeys(t.right);
    }
  }

  lemma {:induction false} OrderedGivesSorted(hash: Hash, t: Tree)
    requires Ordered(hash, t)
    ensures StrictlySorted(hash, Inorder(t))
  {
    if t.Node? {
      OrderedGivesSorted(hash, t.left);
      OrderedGivesSorted(hash, t.right);
      InorderKeys(t.left);
      InorderKeys(t.right);
      var l, r, s := Inorder(t.left), Inorder(t.right), Inorder(t);
      forall i, j | 0 <= i < j < |s| ensures Before(hash, s[i], s[j]) {
        if i < |l| && j > |l| {
          assert s[i] == l[i] && s[j] == r[j - |l| - 1];
          BeforeTransitive(hash, s[i], t.key, s[j]);
        }
      }
    }
  }

  lemma SortedParts(hash: Hash, l: seq<Bytes>, k: Bytes, r: seq<Bytes>)
    requires StrictlySorted(hash, l + [k] + r)
    ensures StrictlySorted(hash, l) && StrictlySorted(hash, r)
    ensures forall x :: x in l ==> Before(hash, x, k)
    ensures forall x :: x in r ==> Before(hash, k, x)
  {
    var s := l + [k] + r;
    assert forall i :: 0 <= i < |l| ==> l[i] == s[i];
    assert forall i :: 0 <= i < |r| ==> r[i] == s[|l| + 1 + i];
    assert s[|l|] == k;
  }

  lemma {:induction false} SortedGivesOrdered(hash: Hash, t: Tree)
    requires StrictlySorted(hash, Inorder(t))
    ensures Ordered(hash, t)
  {
    if t.Node? {
      SortedParts(hash, Inorder(t.left), t.key, Inorder(t.right));
      SortedGivesOrdered(hash, t.left);
      SortedGivesOrdered(hash, t.right);
      InorderKeys(t.left);
      InorderKeys(t.right);
    }
  }

  /** The order of a tree is a property of its in-order sequence alone. */
  lemma OrderedIsSorted(hash: Hash, t: Tree)
    ensures Ordered(hash, t) <==> StrictlySorted(hash, Inorder(t))
  {
    if Ordered(hash, t) { OrderedGivesSorted(hash, t); }
    if StrictlySorted(hash, Inorder(t)) { SortedGivesOrdered(hash, t); }
  }

  /** A rebalancing may change the shape, never the in-order sequence. */
  ghost predicate KeepsInorder(reshape: Tree -> Tree) {
    forall t :: Inorder(reshape(t)) == Inorder(t)
  }

  lemma ReshapeKeeps(hash: Hash, reshape: Tree -> Tree, t: Tree)
    requires KeepsInorder(reshape)
    ensures Keys(reshape(t)) == Keys(t)
    ensures Ordered(hash, reshape(t)) <==> Ordered(hash, t)
  {
    InorderKeys(t);
    InorderKeys(reshape(t));
    OrderedIsSorted(hash, t);
    OrderedIsSorted(hash, reshape(t));
    assert Inorder(reshape(t)) == Inorder(t);
  }

  /** A key off the path taken at a node is not in the subtree left behind. */
  lemma DescentExcludes(hash: Hash, t: Tree, key: Bytes)
    requires Ordered(hash, t) && t.Node?
    ensures Before(hash, key, t.key) ==> key != t.key && key !in Keys(t.right)
    ensures Before(hash, t.key, key) ==> key != t.key && key !in Keys(t.left)
    ensures !Before(hash, key, t.key) && !Before(hash, t.key, key) ==> key == t.key
  {
    BeforeTotal(hash, key, t.key);
    if key in Keys(t.right) { BeforeTotal(hash, t.key, key); }
    if key in Keys(t.left) { BeforeTotal(hash, t.key, key); }
  }

  /** nonce_lookup / throttle_lookup: succeeds exactly for the members. */
  method Lookup(hash: Hash, root: Tree, key: Bytes) returns (found: bool)
    requires Ordered(hash, root)
    ensures found <==> key in Keys(root)
  {
    var node := root;
    var h := hash(key);
    while node.Node?
      invariant Ordered(hash, node)
      invariant key in Keys(node) <==> key in Keys(root)
      decreases node
    {
      DescentExcludes(hash, node, key);
      BeforeTotal(hash, key, node.key);
      if h < hash(node.key) {
        node := node.left;
      } else if h > hash(node.key) {
        node := node.right;
      } else if |key| != |node.key| {
        node := if |key| < |node.key| then node.left else node.right;
      } else if key == node.key {
        return true;
      } else {
        node := if LexLess(key, node.key) then node.left else node.right;
      }
    }
    return false;
  }

  /** What an insertion leaves before rebalancing: `key` in place of one sentinel. */
  function Insert(hash: Hash, t: Tree, key: Bytes): Tree {
    if t.Leaf? then Node(Leaf, key, Leaf)
    else if Before(hash, key, t.key) then t.(left := Insert(hash, t.left, key))
    else t.(right := Insert(hash, t.right, key))
  }

  lemma {:induction false} InsertKeeps(hash: Hash, t: Tree, key: Bytes)
    requires Ordered(hash, t) && key !in Keys(t)
    ensures Ordered(hash, Insert(hash, t, key))
    ensures Keys(Insert(hash, t, key)) == Keys(t) + {key}
  {
    if t.Node? {
      BeforeTotal(hash, key, t.key);
      if Before(hash, key, t.key) {
        InsertKeeps(hash, t.left, key);
      } else {
        InsertKeeps(hash, t.right, key);
      }
    }
  }

  /** The part of the tree around the link `p` of the C loop, innermost first. */
  datatype Path = Top | LeftOf(key: Bytes, right: Tree, up: Path) | RightOf(left: Tree, key: Bytes, up: Path)

  /** The whole tree once `t` hangs at the link. */
  function Plug(path: Path, t: Tree): Tree
    decreases path
  {
    match path
    case Top => t
    case LeftOf(k, r, up) => Plug(up, Node(t, k, r))
    case RightOf(l, k, up) => Plug(up, Node(l, k, t))
  }

  /** nonce_rbtree_insert / throttle_rbtree_insert: descend to a sentinel, hang the node there. */
  method InsertNode(hash: Hash, root: Tree, key: Bytes) returns (t: Tree)
    ensures t == Insert(hash, root, key)
  {
    var temp, path := root, Top;
    while temp.Node?
      invariant Plug(path, Insert(hash, temp, key)) == Insert(hash, root, key)
      decreases temp
    {
      var goLeft;
      if hash(key) < hash(temp.key) {
        goLeft := true;
      } else if hash(key) > hash(temp.key) {
        goLeft := false;
      } else if |key| != |temp.key| {
        goLeft := |key| < |temp.key|;
      } else {
        goLeft := LexLess(key, temp.key);
      }
      if goLeft {
        path, temp := LeftOf(temp.key, temp.right, path), temp.left;
      } else {
        path, temp := RightOf(temp.left, temp.key, path), temp.right;
      }
    }
    t := Plug(path, Node(Leaf, key, Leaf));
  }

  /** A sequence with every occurrence of a key dropped. */
  function Dropped(s: seq<Bytes>, key: Bytes): (r: seq<Bytes>)
    ensures forall k :: k in r <==> k in s && k != key
  {
    if s == [] then [] else if s[0] == key then Dropped(s[1..], key) else [s[0]] + Dropped(s[1..], key)
  }

  /** A deletion may change the shape, but takes exactly its key out of the in-order sequence. */
  ghost predicate Unlinks(unlink: (Tree, Bytes) -> Tree) {
    forall t, key :: Inorder(unlink(t, key)) == Dropped(Inorder(t), key)
  }

  lemma {:induction false} DroppedSorted(hash: Hash, s: seq<Bytes>, key: Bytes)
    requires StrictlySorted(hash, s)
    ensures StrictlySorted(hash, Dropped(s, key))
  {
    if s != [] {
      DroppedSorted(hash, s[1..], key);
      var r := Dropped(s[1..], key);
      forall j | 0 <= j < |r| ensures Before(hash, s[0], r[j]) {
        assert r[j] in s[1..];
      }
    }
  }

  /** Any such deletion keeps the tree strictly ordered and removes that key only. */
  lemma UnlinkKeeps(hash: Hash, unlink: (Tree, Bytes) -> Tree, t: Tree, key: Bytes)
    requires Unlinks(unlink) && Ordered(hash, t)
    ensures Ordered(hash, unlink(t, key))
    ensures Keys(unlink(t, key)) == Keys(t) - {key}
  {
    OrderedIsSorted(hash, t);
    DroppedSorted(hash, Inorder(t), key);
    OrderedIsSorted(hash, unlink(t, key));
    InorderKeys(t);
    InorderKeys(unlink(t, key));
  }

  function Spine(s: seq<Bytes>): (t: Tree)
    ensures Inorder(t) == s
  {
    if s == [] then Leaf else Node(Leaf, s[0], Spine(s[1..]))
  }

  /** There are deletions that qualify. */
  lemma SomeUnlink() returns (unlink: (Tree, Bytes) -> Tree)
    ensures Unlinks(unlink)
  {
    unlink := (t: Tree, key: Bytes) => Spine(Dropped(Inorder(t), key));
  }
}
