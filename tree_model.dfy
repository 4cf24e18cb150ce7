/**
 * The value a binary search tree stands for. `Tree` is the shape of a node
 * graph, one `Branch` per node, and the functions here are what the heap
 * structure in module Bst is specified by: `Insert` is the descent that
 * places or overwrites a key, `Inorder` the left-node-right traversal, and
 * `Contents` the ordered map the tree represents.
 */
module TreeModel {
  import opened KeyOrder

  datatype Tree<V> = Leaf | Branch(left: Tree<V>, key: string, data: V, right: Tree<V>)

  /** The keys held anywhere in `t`. */
  function Keys<V>(t: Tree<V>): set<string>
  {
    match t
    case Leaf => {}
    case Branch(l, k, _, r) => Keys(l) + {k} + Keys(r)
  }

  /** The associative map `t` stands for. */
  function Contents<V>(t: Tree<V>): map<string, V>
  {
    match t
    case Leaf => map[]
    case Branch(l, k, d, r) => (Contents(l) + Contents(r))[k := d]
  }

  /** The number of nodes. */
  function Size<V>(t: Tree<V>): nat
  {
    match t
    case Leaf => 0
    case Branch(l, _, _, r) => Size(l) + 1 + Size(r)
  }

  /** The search-tree ordering: at every node, each key of the left subtree
      is strictly smaller and each key of the right subtree strictly larger. */
  predicate Ordered<V>(t: Tree<V>)
  {
    match t
    case Leaf => true
    case Branch(l, k, _, r) =>
      Ordered(l) && Ordered(r) &&
      (forall x :: x in Keys(l) ==> Less(x, k)) &&
      (forall x :: x in Keys(r) ==> Less(k, x))
  }

  /** Insert-or-update: descend left on a smaller key, right on a larger one;
      an empty spot gets a new leaf node, an equal key gets its data
      overwritten in place. */
  function Insert<V>(t: Tree<V>, key: string, data: V): (r: Tree<V>)
    ensures forall x :: x in Keys(r) <==> x in Keys(t) || x == key
  {
    match t
    case Leaf => Branch(Leaf, key, data, Leaf)
    case Branch(l, k, d, right) =>
      if Less(key, k) then Branch(Insert(l, key, data), k, d, right)
      else if Less(k, key) then Branch(l, k, d, Insert(right, key, data))
      else
        Trichotomy(key, k);
        Branch(l, k, data, right)
  }

  /** The (key, data) pairs in left, node, right order: one pair per node,
      each carrying a key of the tree. */
  function Inorder<V>(t: Tree<V>): (s: seq<(string, V)>)
    ensures |s| == Size(t)
    ensures forall p :: p in s ==> p.0 in Keys(t)
  {
    match t
    case Leaf => []
    case Branch(l, k, d, r) => Inorder(l) + [(k, d)] + Inorder(r)
  }

  /** Keys strictly increase along `s`. */
  predicate StrictlyAscending<V>(s: seq<(string, V)>)
  {
    forall i, j :: 0 <= i < j < |s| ==> Less(s[i].0, s[j].0)
  }

  // ---------------------------------------------------------------------
  // The map view

  lemma {:induction false} KeysAreContentsKeys<V>(t: Tree<V>)
    ensures Keys(t) == Contents(t).Keys
  {
    match t
    case Leaf =>
    case Branch(l, _, _, r) =>
      KeysAreContentsKeys(l);
      KeysAreContentsKeys(r);
  }

  /** In an ordered tree the map is the disjoint union of the two subtrees
      and the node, so each subtree's entries survive unchanged. */
  lemma {:induction false} ContentsOfBranch<V>(t: Tree<V>)
    requires t.Branch? && Ordered(t)
    ensures forall x :: x in Contents(t.left) ==> x in Contents(t) && Contents(t)[x] == Contents(t.left)[x]
    ensures forall x :: x in Contents(t.right) ==> x in Contents(t) && Contents(t)[x] == Contents(t.right)[x]
    ensures t.key in Contents(t) && Contents(t)[t.key] == t.data
  {
    KeysAreContentsKeys(t.left);
    KeysAreContentsKeys(t.right);
    forall x | x in Contents(t.left)
      ensures x in Contents(t) && Contents(t)[x] == Contents(t.left)[x]
    {
      Asymmetric(x, t.key);
      assert x !in Keys(t.right);
    }
    forall x | x in Contents(t.right)
      ensures x in Contents(t) && Contents(t)[x] == Contents(t.right)[x]
    {
      Asymmetric(t.key, x);
    }
  }

  /** In an ordered tree the node count is the number of distinct keys. */
  lemma {:induction false} SizeIsKeyCount<V>(t: Tree<V>)
    requires Ordered(t)
    ensures Size(t) == |Keys(t)|
  {
    match t
    case Leaf =>
    case Branch(l, k, _, r) =>
      SizeIsKeyCount(l);
      SizeIsKeyCount(r);
      assert Keys(l) !! Keys(r) by {
        forall x | x in Keys(l) && x in Keys(r) ensures false {
          Asymmetric(x, k);
        }
      }
      assert k !in Keys(l) by {
        if k in Keys(l) { Irreflexive(k); }
      }
      assert k !in Keys(r) by {
        if k in Keys(r) { Irreflexive(k); }
      }
      assert |Keys(l) + Keys(r)| == |Keys(l)| + |Keys(r)|;
      assert |Keys(l) + {k} + Keys(r)| == |Keys(l) + Keys(r)| + 1 by {
        assert Keys(l) + {k} + Keys(r) == (Keys(l) + Keys(r)) + {k};
      }
  }

  // ---------------------------------------------------------------------
  // Insert

  /** Inserting keeps the search-tree ordering. */
  lemma {:induction false} InsertOrdered<V>(t: Tree<V>, key: string, data: V)
    requires Ordered(t)
    ensures Ordered(Insert(t, key, data))
  {
    match t
    case Leaf =>
    case Branch(l, k, _, r) =>
      if Less(key, k) {
        InsertOrdered(l, key, data);
      } else if Less(k, key) {
        InsertOrdered(r, key, data);
      }
  }

  /** Insert-or-update on the map: the key now maps to `data`, and every
      other key keeps its entry. */
  lemma {:induction false} InsertContents<V>(t: Tree<V>, key: string, data: V)
    requires Ordered(t)
    ensures Contents(Insert(t, key, data)) == Contents(t)[key := data]
  {
    match t
    case Leaf =>
    case Branch(l, k, d, r) =>
      if Less(key, k) {
        InsertContents(l, key, data);
        KeysAreContentsKeys(r);
        Asymmetric(key, k);
        assert key !in Keys(r);
        UpdateLeftOfUnion(Contents(l), Contents(r), key, data, k, d);
      } else if Less(k, key) {
        InsertContents(r, key, data);
        Asymmetric(k, key);
        UpdateRightOfUnion(Contents(l), Contents(r), key, data, k, d);
      } else {
        Trichotomy(key, k);
      }
  }

  lemma UpdateLeftOfUnion<V>(a: map<string, V>, b: map<string, V>, x: string, v: V, k: string, d: V)
    requires x !in b && x != k
    ensures (a[x := v] + b)[k := d] == (a + b)[k := d][x := v]
  {
  }

  lemma UpdateRightOfUnion<V>(a: map<string, V>, b: map<string, V>, x: string, v: V, k: string, d: V)
    requires x != k
    ensures (a + b[x := v])[k := d] == (a + b)[k := d][x := v]
  {
  }

  /** Overwriting a present key adds no node; an absent key adds exactly one. */
  lemma {:induction false} InsertSize<V>(t: Tree<V>, key: string, data: V)
    requires Ordered(t)
    ensures Size(Insert(t, key, data)) == if key in Keys(t) then Size(t) else Size(t) + 1
  {
    match t
    case Leaf =>
    case Branch(l, k, _, r) =>
      if Less(key, k) {
        InsertSize(l, key, data);
        Asymmetric(key, k);
        assert key !in Keys(r);
      } else if Less(k, key) {
        InsertSize(r, key, data);
        Asymmetric(k, key);
        assert key !in Keys(l);
      } else {
        Trichotomy(key, k);
      }
  }

  /** Everything insert promises about the value, in one place. */
  lemma InsertSpec<V>(t: Tree<V>, key: string, data: V)
    requires Ordered(t)
    ensures Ordered(Insert(t, key, data))
    ensures Contents(Insert(t, key, data)) == Contents(t)[key := data]
    ensures Keys(Insert(t, key, data)) == Keys(t) + {key}
    ensures Size(Insert(t, key, data)) == if key in Keys(t) then Size(t) else Size(t) + 1
  {
    InsertOrdered(t, key, data);
    InsertContents(t, key, data);
    InsertSize(t, key, data);
  }

  // ---------------------------------------------------------------------
  // Inorder

  /** The pairs the traversal produces are exactly the entries of the map. */
  lemma {:induction false} InorderPairs<V>(t: Tree<V>)
    requires Ordered(t)
    ensures forall p :: p in Inorder(t) <==> p.0 in Contents(t) && Contents(t)[p.0] == p.1
  {
    match t
    case Leaf =>
    case Branch(l, k, d, r) =>
      InorderPairs(l);
      InorderPairs(r);
      ContentsOfBranch(t);
      KeysAreContentsKeys(l);
      KeysAreContentsKeys(r);
      forall p ensures p in Inorder(t) <==> p.0 in Contents(t) && Contents(t)[p.0] == p.1 {
        if p.0 in Keys(l) {
          Asymmetric(p.0, k);
          assert p.0 !in Keys(r);
        } else if p.0 in Keys(r) {
          Asymmetric(k, p.0);
        }
      }
  }

  /** The traversal of an ordered tree lists its keys in strictly ascending
      order. */
  lemma {:induction false} InorderAscending<V>(t: Tree<V>)
    requires Ordered(t)
    ensures StrictlyAscending(Inorder(t))
  {
    match t
    case Leaf =>
    case Branch(l, k, d, r) =>
      InorderAscending(l);
      InorderAscending(r);
      forall p | p in Inorder(l) ensures Less(p.0, k) {
      }
      forall p | p in Inorder(r) ensures Less(k, p.0) {
      }
      AscendingJoin(Inorder(l), k, d, Inorder(r));
  }

  /** Two ascending runs, one below `k` and one above it, joined around
      `k` form one ascending run. */
  lemma AscendingJoin<V>(sl: seq<(string, V)>, k: string, d: V, sr: seq<(string, V)>)
    requires StrictlyAscending(sl) && StrictlyAscending(sr)
    requires forall p :: p in sl ==> Less(p.0, k)
    requires forall p :: p in sr ==> Less(k, p.0)
    ensures StrictlyAscending(sl + [(k, d)] + sr)
  {
    var s := sl + [(k, d)] + sr;
    var nl := |sl|;
    forall i, j | 0 <= i < j < |s| ensures Less(s[i].0, s[j].0) {
      if j < nl {
        assert s[i] == sl[i] && s[j] == sl[j];
      } else if i > nl {
        assert s[i] == sr[i - nl - 1] && s[j] == sr[j - nl - 1];
      } else if i == nl {
        assert s[j] == sr[j - nl - 1] && sr[j - nl - 1] in sr;
      } else if j == nl {
        assert s[i] == sl[i] && sl[i] in sl;
      } else {
        assert s[i] == sl[i] && s[j] == sr[j - nl - 1];
        assert sl[i] in sl && sr[j - nl - 1] in sr;
        Transitive(s[i].0, k, s[j].0);
      }
    }
  }

  /** Strictly ascending keys are pairwise distinct: one pair per key. */
  lemma AscendingDistinct<V>(s: seq<(string, V)>)
    requires StrictlyAscending(s)
    ensures forall i, j :: 0 <= i < |s| && 0 <= j < |s| && i != j ==> s[i].0 != s[j].0
  {
    forall i, j | 0 <= i < |s| && 0 <= j < |s| && i != j ensures s[i].0 != s[j].0 {
      if i < j { Asymmetric(s[i].0, s[j].0); } else { Asymmetric(s[j].0, s[i].0); }
    }
  }
}
