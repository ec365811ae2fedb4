/**
 * A shared-memory zone: one set of nodes reached both through the search tree
 * and through an insertion-order queue (newest at the head).
 */
module SharedStore {
  import opened ByteStrings
  import opened OrderedIndex

  /** A slab node: the key bytes and the zone's own payload. */
  datatype Cell<V> = Cell(key: Bytes, value: V)

  /** What a zone holds once the tree is forgotten: its nodes in queue order. */
  type Queue<V> = seq<Cell<V>>

  ghost predicate Distinct<V>(q: Queue<V>) {
    forall i, j :: 0 <= i < j < |q| ==> q[i].key != q[j].key
  }

  predicate Has<V>(q: Queue<V>, key: Bytes) {
    exists i :: 0 <= i < |q| && q[i].key == key
  }

  /** The payload stored under a key. */
  function Find<V>(q: Queue<V>, key: Bytes): Option<V> {
    if q == [] then None
    else if q[0].key == key then Some(q[0].value)
    else Find(q[1..], key)
  }

  lemma {:induction false} FindHas<V>(q: Queue<V>, key: Bytes)
    ensures Find(q, key).Some? <==> Has(q, key)
  {
    if q != [] {
      FindHas(q[1..], key);
      if Has(q[1..], key) {
        var i :| 0 <= i < |q[1..]| && q[1..][i].key == key;
        assert q[i + 1].key == key;
      }
      if Has(q, key) && q[0].key != key {
        var i :| 0 <= i < |q| && q[i].key == key;
        assert q[1..][i - 1].key == key;
      }
    }
  }

  lemma {:induction false} FindAt<V>(q: Queue<V>, i: nat)
    requires Distinct(q) && i < |q|
    ensures Find(q, q[i].key) == Some(q[i].value)
  {
    if i > 0 {
      assert q[1..][i - 1] == q[i];
      FindAt(q[1..], i - 1);
    }
  }

  /** Lookup in a queue split in two. */
  lemma {:induction false} FindAppend<V>(a: Queue<V>, b: Queue<V>, key: Bytes)
    ensures Find(a + b, key) == if Find(a, key).Some? then Find(a, key) else Find(b, key)
  {
    if a == [] {
      assert a + b == b;
    } else {
      assert (a + b)[1..] == a[1..] + b;
      FindAppend(a[1..], b, key);
    }
  }

  /** The queue without its i-th node. */
  function Without<V>(q: Queue<V>, i: nat): Queue<V>
    requires i < |q|
  {
    q[..i] + q[i + 1..]
  }

  lemma WithoutKeys<V>(q: Queue<V>, i: nat)
    requires Distinct(q) && i < |q|
    ensures Distinct(Without(q, i))
    ensures forall k :: Has(Without(q, i), k) <==> Has(q, k) && k != q[i].key
  {
    var r := Without(q, i);
    forall k ensures Has(r, k) <==> Has(q, k) && k != q[i].key {
      if Has(r, k) {
        var j :| 0 <= j < |r| && r[j].key == k;
        assert q[if j < i then j else j + 1].key == k;
      }
      if Has(q, k) && k != q[i].key {
        var j :| 0 <= j < |q| && q[j].key == k;
        assert r[if j < i then j else j - 1].key == k;
      }
    }
  }

  lemma ConsKeys<V>(c: Cell<V>, q: Queue<V>)
    ensures forall k :: Has([c] + q, k) <==> k == c.key || Has(q, k)
    ensures Distinct(q) && !Has(q, c.key) ==> Distinct([c] + q)
  {
    var r := [c] + q;
    forall k ensures Has(r, k) <==> k == c.key || Has(q, k) {
      assert r[0] == c;
      if Has(q, k) {
        var j :| 0 <= j < |q| && q[j].key == k;
        assert r[j + 1].key == k;
      }
      if Has(r, k) && k != c.key {
        var j :| 0 <= j < |r| && r[j].key == k;
        assert q[j - 1].key == k;
      }
    }
  }

  class Zone<V> {
    const hash: Hash                  // crc32 in the C code; nothing below depends on it
    const reshape: Tree -> Tree       // the red-black rebalancing, likewise
    const unlink: (Tree, Bytes) -> Tree  // the red-black deletion, likewise
    var tree: Tree
    var queue: Queue<V>

    /** Tree and queue hold exactly the same nodes, each once, and the tree is in order. */
    ghost predicate Valid()
      reads this
    {
      && KeepsInorder(reshape) && Unlinks(unlink)
      && Ordered(hash, tree)
      && Distinct(queue)
      && (forall k :: k in Keys(tree) <==> Has(queue, k))
    }

    constructor (hash: Hash, reshape: Tree -> Tree, unlink: (Tree, Bytes) -> Tree)
      requires KeepsInorder(reshape) && Unlinks(unlink)
      ensures Valid() && queue == []
      ensures this.hash == hash && this.reshape == reshape && this.unlink == unlink
    {
      this.hash, this.reshape, this.unlink := hash, reshape, unlink;
      tree, queue := Leaf, [];
    }

    /** The tree search agrees with the plain list of nodes. */
    method Contains(key: Bytes) returns (found: bool)
      requires Valid()
      ensures found <==> Has(queue, key)
    {
      found := Lookup(hash, tree, key);
    }

    /** The node a successful search returns, as its place in the queue. */
    method Position(key: Bytes) returns (i: nat)
      requires Valid() && Has(queue, key)
      ensures i < |queue| && queue[i].key == key
    {
      i :| 0 <= i < |queue| && queue[i].key == key;
    }

    /** Link a new node into the tree and at the head of the queue. */
    method InsertHead(key: Bytes, value: V)
      requires Valid() && !Has(queue, key)
      modifies this
      ensures Valid() && queue == [Cell(key, value)] + old(queue)
    {
      InsertKeeps(hash, tree, key);
      ConsKeys(Cell(key, value), queue);
      var t := InsertNode(hash, tree, key);
      ReshapeKeeps(hash, reshape, t);
      tree := reshape(t);
      queue := [Cell(key, value)] + queue;
    }

    /** Unlink the i-th node from both structures and free it. */
    method Remove(i: nat)
      requires Valid() && i < |queue|
      modifies this
      ensures Valid() && queue == Without(old(queue), i)
    {
      var key := queue[i].key;
      WithoutKeys(queue, i);
      UnlinkKeeps(hash, unlink, tree, key);
      tree := unlink(tree, key);
      queue := Without(queue, i);
    }

    /** Unlink a node from the queue and put it back at the head with a new payload. */
    method RefreshHead(i: nat, value: V)
      requires Valid() && i < |queue|
      modifies this`queue
      ensures Valid() && queue == [Cell(old(queue[i].key), value)] + Without(old(queue), i)
    {
      var c := Cell(queue[i].key, value);
      WithoutKeys(queue, i);
      ConsKeys(c, Without(queue, i));
      queue := [c] + Without(queue, i);
    }
  }
}
