/**
 * The unbalanced binary search tree of bst.py, as heap objects whose fields
 * are updated in place.
 *
 * A `Node` has exactly the four fields of the source. A tree keeps, beside
 * its root, a ghost `Shape`: the node graph written out as a datatype value,
 * one `Fork` per node, recording that node, its key and its data.
 * `Describes(shape, root)` says the heap really is that picture, and
 * `Disjoint(shape)` that no node occurs twice in it, so the graph is a tree
 * with no sharing and no cycles. Erasing the node references from a shape
 * gives the `TreeModel.Tree` value the operations are specified by.
 */
module Bst {
  import opened KeyOrder
  import opened TreeModel

  class Node<V> {
    var key: string
    var data: V
    var left: Node?<V>
    var right: Node?<V>

    /** A node with no children. */
    constructor (key: string, data: V)
      ensures this.key == key && this.data == data
      ensures left == null && right == null
    {
      this.key := key;
      this.data := data;
      left := null;
      right := null;
    }
  }

  /** The picture of a node graph: which node sits where, with which key
      and data. */
  datatype Shape<V> = Nil | Fork(left: Shape<V>, node: Node<V>, key: string, data: V, right: Shape<V>)

  /** The nodes a shape mentions. */
  function Objects<V>(s: Shape<V>): set<Node<V>>
  {
    match s
    case Nil => {}
    case Fork(l, n, _, _, r) => Objects(l) + {n} + Objects(r)
  }

  /** The tree value of a shape: the same branches without the nodes. */
  function Erase<V>(s: Shape<V>): Tree<V>
  {
    match s
    case Nil => Leaf
    case Fork(l, _, k, d, r) => Branch(Erase(l), k, d, Erase(r))
  }

  /** No node occurs twice in the shape. */
  predicate Disjoint<V>(s: Shape<V>)
  {
    match s
    case Nil => true
    case Fork(l, n, _, _, r) =>
      Disjoint(l) && Disjoint(r) &&
      n !in Objects(l) && n !in Objects(r) && Objects(l) !! Objects(r)
  }

  /** The heap below `n` is the graph `s` pictures: an empty shape for no
      node, and otherwise `n` itself holding the recorded key and data, with
      its `left` and `right` fields described by the two sub-shapes. */
  ghost predicate Describes<V>(s: Shape<V>, n: Node?<V>)
    reads Objects(s)
  {
    match s
    case Nil => n == null
    case Fork(l, m, k, d, r) =>
      n == m && m.key == k && m.data == d &&
      Describes(l, m.left) && Describes(r, m.right)
  }

  lemma {:induction false} ObjectsAllocated<V>(s: Shape<V>)
    requires allocated(s)
    ensures forall o :: o in Objects(s) ==> allocated(o)
  {
    match s
    case Nil =>
    case Fork(l, _, _, _, r) =>
      ObjectsAllocated(l);
      ObjectsAllocated(r);
  }

  /** A tree with no shared nodes has one node per branch of its value. */
  lemma {:induction false} NodeCount<V>(s: Shape<V>)
    requires Disjoint(s)
    ensures |Objects(s)| == Size(Erase(s))
  {
    match s
    case Nil =>
    case Fork(l, n, _, _, r) =>
      NodeCount(l);
      NodeCount(r);
      DisjointUnionSize(Objects(l), n, Objects(r));
  }

  lemma DisjointUnionSize<T>(a: set<T>, x: T, b: set<T>)
    requires a !! b && x !in a && x !in b
    ensures |a + {x} + b| == |a| + 1 + |b|
  {
  }

  lemma SameSizeSubset<T>(a: set<T>, b: set<T>)
    requires a <= b && |a| == |b|
    ensures a == b
  {
    assert |b - a| == |b| - |a|;
  }

  /** What insert does to the node set: the nodes are as many as the
      branches, and they grow by one exactly when the key was absent. */
  lemma InsertNodes<V>(s: Shape<V>, s': Shape<V>, key: string, data: V)
    requires Disjoint(s) && Disjoint(s') && Ordered(Erase(s))
    requires Objects(s) <= Objects(s') && Erase(s') == Insert(Erase(s), key, data)
    ensures |Objects(s')| == Size(Erase(s'))
    ensures key in Keys(Erase(s)) ==> Objects(s') == Objects(s)
    ensures key !in Keys(Erase(s)) ==> |Objects(s')| == |Objects(s)| + 1
  {
    NodeCount(s);
    NodeCount(s');
    InsertSize(Erase(s), key, data);
    if key in Keys(Erase(s)) {
      SameSizeSubset(Objects(s), Objects(s'));
    }
  }

  /** Every node of an ordered tree holds a key of the tree, and a search
      for that key from the root ends at that very node: no two nodes share
      a key. */
  lemma {:induction false} SearchFindsEveryNode<V>(s: Shape<V>, root: Node?<V>, n: Node<V>)
    requires Describes(s, root) && Disjoint(s) && Ordered(Erase(s)) && n in Objects(s)
    ensures n.key in Keys(Erase(s))
    ensures BinarySearchTree<V>.SearchRecursive(root, n.key, s) == n
  {
    match s
    case Fork(l, m, k, _, r) =>
      if n != m {
        if n in Objects(l) {
          SearchFindsEveryNode(l, m.left, n);
          Asymmetric(n.key, k);
        } else {
          SearchFindsEveryNode(r, m.right, n);
          Asymmetric(k, n.key);
        }
      }
  }

  /** In an ordered tree whose map sends `key` to `data`, every node holding
      `key` holds `data`: it is the one node a search for `key` finds. */
  lemma NodesOfKey<V>(s: Shape<V>, root: Node?<V>, key: string, data: V)
    requires Describes(s, root) && Disjoint(s) && Ordered(Erase(s))
    requires key in Contents(Erase(s)) && Contents(Erase(s))[key] == data
    ensures forall n :: n in Objects(s) && n.key == key ==> n.data == data
  {
    forall n | n in Objects(s) && n.key == key ensures n.data == data {
      SearchFindsEveryNode(s, root, n);
    }
  }

  /** What an insert into a tree of node objects leaves behind, in terms of
      the pictures before and after: the new picture is ordered and has the
      updated map, no node but the new one is added, and every node holding
      `key` holds `data`. */
  lemma InsertDone<V>(s: Shape<V>, s': Shape<V>, root: Node?<V>, key: string, data: V)
    requires Disjoint(s) && Ordered(Erase(s))
    requires Describes(s', root) && Disjoint(s')
    requires Objects(s) <= Objects(s') && Erase(s') == Insert(Erase(s), key, data)
    ensures Ordered(Erase(s'))
    ensures Contents(Erase(s')) == Contents(Erase(s))[key := data]
    ensures Keys(Erase(s')) == Keys(Erase(s)) + {key}
    ensures |Objects(s')| == Size(Erase(s'))
    ensures key in Keys(Erase(s)) ==> Objects(s') == Objects(s) && Size(Erase(s')) == Size(Erase(s))
    ensures key !in Keys(Erase(s)) ==> |Objects(s')| == |Objects(s)| + 1 && Size(Erase(s')) == Size(Erase(s)) + 1
    ensures forall n :: n in Objects(s') && n.key == key ==> n.data == data
  {
    InsertSpec(Erase(s), key, data);
    InsertNodes(s, s', key, data);
    NodesOfKey(s', root, key, data);
  }

  /** After an insert of `key` with `data`, the picture is ordered and a
      search for `key` ends at a node holding `key` and `data`. */
  lemma SearchAfterInsert<V>(t: Tree<V>, s: Shape<V>, root: Node?<V>, key: string, data: V)
    requires Ordered(t) && Erase(s) == Insert(t, key, data)
    requires Describes(s, root) && Disjoint(s)
    ensures Ordered(Erase(s)) &&
            var r := BinarySearchTree<V>.SearchRecursive(root, key, s);
            r != null && r.key == key && r.data == data
  {
    InsertOrdered(t, key, data);
    InsertContents(t, key, data);
  }

  class BinarySearchTree<V> {
    var root: Node?<V>

    /** The picture of the nodes below `root`. */
    ghost var shape: Shape<V>

    /** The nodes form a tree with no sharing, and its keys are ordered. */
    ghost predicate Valid()
      reads this, Objects(shape)
    {
      Describes(shape, root) && Disjoint(shape) && Ordered(Erase(shape))
    }

    /** The value the tree stands for. */
    ghost function Model(): Tree<V>
      reads this
    {
      Erase(shape)
    }

    /** The nodes of the tree. */
    ghost function Nodes(): set<Node<V>>
      reads this
    {
      Objects(shape)
    }

    /** A new tree has no root and holds nothing. */
    constructor ()
      ensures Valid() && root == null && Model() == Leaf && Nodes() == {}
      ensures Contents(Model()) == map[] && TreeModel.Inorder(Model()) == []
    {
      root := null;
      shape := Nil;
    }

    /** Insert-or-update: the map gains or overwrites `key`, no other entry
        changes, the ordering is kept, every existing node stays, and exactly
        one fresh node is added when `key` was absent, none otherwise. */
    method Insert(key: string, data: V)
      requires Valid()
      modifies this, Nodes()`left, Nodes()`right, Nodes()`data
      ensures Valid()
      ensures Model() == TreeModel.Insert(old(Model()), key, data)
      ensures Contents(Model()) == old(Contents(Model()))[key := data]
      ensures Keys(Model()) == old(Keys(Model())) + {key}
      ensures old(Nodes()) <= Nodes() && fresh(Nodes() - old(Nodes()))
      ensures |Nodes()| == Size(Model())
      ensures key in old(Keys(Model())) ==> Nodes() == old(Nodes()) && Size(Model()) == old(Size(Model()))
      ensures key !in old(Keys(Model())) ==> |Nodes()| == old(|Nodes()|) + 1 && Size(Model()) == old(Size(Model())) + 1
      ensures forall n {:trigger old(n.key)} :: n in old(Nodes()) && old(allocated(n)) && old(n.key) != key ==> n.data == old(n.data)
      ensures forall n :: n in Nodes() && n.key == key ==> n.data == data
    {
      ghost var before := shape;
      root, shape := InsertRecursive(root, key, data, shape);
      InsertDone(before, shape, root, key, data);
    }

    /** The recursive descent of insert. It returns the root of the updated
        subtree, the same node when there was one and a fresh leaf
        otherwise, together with the subtree's new picture. */
    static method InsertRecursive(current: Node?<V>, key: string, data: V, ghost s: Shape<V>)
      returns (r: Node<V>, ghost s': Shape<V>)
      requires Describes(s, current) && Disjoint(s)
      modifies Objects(s)`left, Objects(s)`right, Objects(s)`data
      ensures Describes(s', r) && Disjoint(s')
      ensures Erase(s') == TreeModel.Insert(Erase(s), key, data)
      ensures Objects(s) <= Objects(s') && fresh(Objects(s') - Objects(s))
      ensures current != null ==> r == current
      ensures forall n {:trigger old(n.key)} :: n in Objects(s) && old(allocated(n)) && old(n.key) != key ==> n.data == old(n.data)
      decreases s
    {
      ObjectsAllocated(s);
      if current == null {
        r := new Node(key, data);
        s' := Fork(Nil, r, key, data, Nil);
        return;
      }
      if Less(key, current.key) {
        var newLeft;
        ghost var left';
        newLeft, left' := InsertRecursive(current.left, key, data, s.left);
        current.left := newLeft;
        s' := Fork(left', current, s.key, s.data, s.right);
      } else if Less(current.key, key) {
        var newRight;
        ghost var right';
        newRight, right' := InsertRecursive(current.right, key, data, s.right);
        current.right := newRight;
        s' := Fork(s.left, current, s.key, s.data, right');
      } else {
        Trichotomy(key, current.key);
        current.data := data;
        s' := Fork(s.left, current, s.key, data, s.right);
      }
      r := current;
    }

    /** Search: the node holding `key`, or null when no node does; there is
        never a second node with that key. */
    method Search(key: string) returns (r: Node?<V>)
      requires Valid()
      ensures Valid()
      ensures r == null <==> key !in Contents(Model())
      ensures r != null ==> r in Nodes() && r.key == key && r.data == Contents(Model())[key]
      ensures forall n :: n in Nodes() && n.key == key ==> n == r
    {
      r := SearchRecursive(root, key, shape);
      forall n | n in Nodes() && n.key == key ensures n == r {
        SearchFindsEveryNode(shape, root, n);
      }
    }

    /** The recursive descent of search: it stops at an equal key or a
        missing child, and goes left exactly when `key` is smaller. */
    static function SearchRecursive(current: Node?<V>, key: string, ghost s: Shape<V>): (r: Node?<V>)
      requires Describes(s, current) && Disjoint(s) && Ordered(Erase(s))
      reads Objects(s)
      ensures r == null <==> key !in Contents(Erase(s))
      ensures r != null ==> r in Objects(s) && r.key == key && r.data == Contents(Erase(s))[key]
      decreases s
    {
      if current == null || current.key == key then
        (if current != null then ContentsOfBranch(Erase(s)); current else null)
      else if Less(key, current.key) then
        ContentsOfBranch(Erase(s));
        Asymmetric(key, current.key);
        KeysAreContentsKeys(Erase(s.left));
        KeysAreContentsKeys(Erase(s.right));
        SearchRecursive(current.left, key, s.left)
      else
        ContentsOfBranch(Erase(s));
        Trichotomy(key, current.key);
        Asymmetric(current.key, key);
        KeysAreContentsKeys(Erase(s.left));
        KeysAreContentsKeys(Erase(s.right));
        SearchRecursive(current.right, key, s.right)
    }

    /** The traversal: the tree's entries in strictly ascending key order,
        exactly the pairs of the map, one per node. */
    method Inorder() returns (result: seq<(string, V)>)
      requires Valid()
      ensures Valid()
      ensures result == TreeModel.Inorder(Model())
      ensures StrictlyAscending(result)
      ensures forall i, j :: 0 <= i < |result| && 0 <= j < |result| && i != j ==> result[i].0 != result[j].0
      ensures forall p :: p in result <==> p.0 in Contents(Model()) && Contents(Model())[p.0] == p.1
      ensures |result| == |Nodes()| == |Keys(Model())|
    {
      ObjectsAllocated(shape);
      result := InorderRecursive(root, [], shape);
      InorderAscending(Model());
      AscendingDistinct(result);
      InorderPairs(Model());
      NodeCount(shape);
      SizeIsKeyCount(Model());
    }

    /** The recursive traversal: appends the pairs of the subtree at
        `current`, in order, to the list built so far. */
    static method InorderRecursive(current: Node?<V>, result: seq<(string, V)>, ghost s: Shape<V>)
      returns (out: seq<(string, V)>)
      requires Describes(s, current)
      ensures out == result + TreeModel.Inorder(Erase(s))
      decreases s
    {
      out := result;
      if current != null {
        ObjectsAllocated(s.right);
        out := InorderRecursive(current.left, out, s.left);
        out := out + [(current.key, current.data)];
        out := InorderRecursive(current.right, out, s.right);
      }
    }
  }
}
