/** The insert-only set of keys (Python `mytrie.TrieSet`): insertion, bulk
    update, and the set algebra built on enumeration and membership. */
module TrieSets {
  import opened Results
  import opened TrieNodes
  import opened TrieBase

  /** A trie of keys together with the null element of its key type. Keys
      are token sequences whose identity is `[]`; the null element object is
      kept only to be compared when two tries are combined. */
  datatype TrieSet<T, E> = TrieSet(root: Node<T>, nullElement: E)

  /** A fresh trie: a root with no children that is not a member. */
  function Empty<T, E>(nullElement: E): (t: TrieSet<T, E>)
    ensures Keys(t.root) == {}
    ensures Valid(t.root)
    ensures t.nullElement == nullElement
  {
    TrieSet(EmptyNode(), nullElement)
  }

  /** The walk of `add`: follow `key`, creating an empty node for each
      missing token, and mark the node reached as a member. */
  function Insert<T>(n: Node<T>, key: seq<T>): Node<T>
    decreases |key|
  {
    if key == [] then
      Node(n.children, true)
    else
      var t := key[0];
      var child := if t in n.children then n.children[t] else EmptyNode();
      Node(n.children[t := Insert(child, key[1..])], n.member)
  }

  /** After `add(key)`, `key` is contained and no other key's membership has
      changed. */
  lemma InsertContains<T(!new)>(n: Node<T>, key: seq<T>)
    ensures Contains(Insert(n, key), key)
    ensures forall k :: k != key ==> (Contains(Insert(n, key), k) <==> Contains(n, k))
  {
    InsertHasKey(n, key);
    forall k | k != key
      ensures Contains(Insert(n, key), k) <==> Contains(n, k)
    {
      InsertKeepsOthers(n, key, k);
    }
  }

  lemma {:induction false} InsertHasKey<T(!new)>(n: Node<T>, key: seq<T>)
    ensures Contains(Insert(n, key), key)
    decreases |key|
  {
    if key != [] {
      var t := key[0];
      var child := if t in n.children then n.children[t] else EmptyNode();
      InsertHasKey(child, key[1..]);
      assert Insert(n, key).children[t] == Insert(child, key[1..]);
    }
  }

  lemma {:induction false} InsertKeepsOthers<T(!new)>(n: Node<T>, key: seq<T>, k: seq<T>)
    requires k != key
    ensures Contains(Insert(n, key), k) <==> Contains(n, k)
    decreases |key|
  {
    if key != [] && k != [] {
      var t := key[0];
      var child := if t in n.children then n.children[t] else EmptyNode();
      var r := Insert(n, key);
      assert r.children == n.children[t := Insert(child, key[1..])];
      if k[0] == t {
        assert k == [t] + k[1..] && key == [t] + key[1..];
        InsertKeepsOthers(child, key[1..], k[1..]);
        if t !in n.children {
          assert Keys(EmptyNode<T>()) == {};
        }
      }
    }
  }

  /** Insertion adds exactly `key` to the stored keys. */
  lemma InsertKeys<T(!new)>(n: Node<T>, key: seq<T>)
    ensures Keys(Insert(n, key)) == Keys(n) + {key}
  {
    var r := Insert(n, key);
    InsertContains(n, key);
    forall k
      ensures k in Keys(r) <==> k in Keys(n) + {key}
    {
      if k == key {
        assert Contains(r, k);
      } else {
        assert Contains(r, k) == Contains(n, k);
      }
    }
    SameElementsSameSet(Keys(r), Keys(n) + {key});
  }

  /** Insertion keeps the invariant: afterwards even the root leads to a
      member. */
  lemma {:induction false} InsertValid<T(!new)>(n: Node<T>, key: seq<T>)
    requires Valid(n)
    ensures Pruned(Insert(n, key))
    decreases |key|
  {
    var r := Insert(n, key);
    InsertKeys(n, key);
    if key != [] {
      var t := key[0];
      var child := if t in n.children then n.children[t] else EmptyNode();
      if t in n.children {
        PrunedIsValid(child);
      }
      InsertValid(child, key[1..]);
      assert r.children == n.children[t := Insert(child, key[1..])];
    }
  }

  /** Inserting a key twice leaves the same tree as inserting it once. */
  lemma {:induction false} InsertIdempotent<T(!new)>(n: Node<T>, key: seq<T>)
    ensures Insert(Insert(n, key), key) == Insert(n, key)
    decreases |key|
  {
    if key != [] {
      var t := key[0];
      var child := if t in n.children then n.children[t] else EmptyNode();
      InsertIdempotent(child, key[1..]);
      var once := Insert(n, key);
      assert once.children[t] == Insert(child, key[1..]);
      assert once.children[t := Insert(once.children[t], key[1..])] == once.children;
    }
  }

  /** The order of two insertions into a trie built by insertion does not
      matter: the tree is the same. */
  lemma InsertCommutes<T(!new)>(n: Node<T>, a: seq<T>, b: seq<T>)
    requires Valid(n)
    ensures Insert(Insert(n, a), b) == Insert(Insert(n, b), a)
  {
    var na, nb := Insert(n, a), Insert(n, b);
    InsertKeys(n, a);
    InsertKeys(n, b);
    InsertKeys(na, b);
    InsertKeys(nb, a);
    InsertKeepsValid(n, a);
    InsertKeepsValid(n, b);
    InsertKeepsValid(na, b);
    InsertKeepsValid(nb, a);
    SameKeysSameNode(Insert(na, b), Insert(nb, a));
  }

  /** Python `mytrie.TrieSet.add`. */
  function Add<T(!new), E>(t: TrieSet<T, E>, key: seq<T>): (r: TrieSet<T, E>)
    ensures Keys(r.root) == Keys(t.root) + {key}
    ensures Valid(t.root) ==> Valid(r.root)
    ensures r.nullElement == t.nullElement
  {
    InsertKeys(t.root, key);
    InsertKeepsValid(t.root, key);
    TrieSet(Insert(t.root, key), t.nullElement)
  }

  lemma InsertKeepsValid<T(!new)>(n: Node<T>, key: seq<T>)
    ensures Valid(n) ==> Valid(Insert(n, key))
  {
    if Valid(n) {
      InsertValid(n, key);
      PrunedIsValid(Insert(n, key));
    }
  }

  /** Adding a key already added changes nothing. */
  lemma AddIdempotent<T(!new), E>(t: TrieSet<T, E>, key: seq<T>)
    ensures Add(Add(t, key), key) == Add(t, key)
  {
    InsertIdempotent(t.root, key);
  }

  /** Python `mytrie.TrieSet.update`: add each key of `keys` in turn. */
  function Update<T(!new), E>(t: TrieSet<T, E>, keys: seq<seq<T>>): (r: TrieSet<T, E>)
    ensures forall k :: k in Keys(r.root) <==> k in Keys(t.root) || k in keys
    ensures Valid(t.root) ==> Valid(r.root)
    ensures r.nullElement == t.nullElement
    decreases |keys|
  {
    if keys == [] then
      t
    else
      var r := Update(Add(t, keys[0]), keys[1..]);
      assert forall k :: k in keys <==> k == keys[0] || k in keys[1..];
      r
  }

  /** `TrieSet(contents, null_element)`: a fresh trie updated with
      `contents`. */
  function FromSeq<T(!new), E>(contents: seq<seq<T>>, nullElement: E): (t: TrieSet<T, E>)
    ensures forall k :: k in Keys(t.root) <==> k in contents
    ensures Valid(t.root)
    ensures t.nullElement == nullElement
  {
    Update(Empty(nullElement), contents)
  }

  /** Building from two sequences with the same elements, in any order and
      with any repetitions, gives the same trie. */
  lemma FromSeqOrderFree<T(!new), E>(xs: seq<seq<T>>, ys: seq<seq<T>>, nullElement: E)
    requires forall k :: k in xs <==> k in ys
    ensures FromSeq(xs, nullElement) == FromSeq(ys, nullElement)
  {
    var a, b := FromSeq(xs, nullElement), FromSeq(ys, nullElement);
    SameElementsSameSet(Keys(a.root), Keys(b.root));
    SameKeysSameNode(a.root, b.root);
  }

  /** A fresh trie holding the keys of a set, added in an arbitrary order
      (how `mytrie.TrieSet` builds the results of `union` and `intersection`). */
  ghost function FromSet<T(!new), E>(contents: set<seq<T>>, nullElement: E): (t: TrieSet<T, E>)
    ensures Keys(t.root) == contents
    ensures Valid(t.root)
    ensures t.nullElement == nullElement
    decreases contents
  {
    if contents == {} then
      Empty(nullElement)
    else
      var key :| key in contents;
      assert contents == (contents - {key}) + {key};
      Add(FromSet(contents - {key}, nullElement), key)
  }

  /** Python `mytrie.TrieSet.union`: `ValueError` when the null elements differ,
      otherwise a fresh trie of the keys of both. */
  ghost function Union<T(!new), E>(a: TrieSet<T, E>, b: TrieSet<T, E>): (r: Result<TrieSet<T, E>>)
    ensures r.Err? <==> a.nullElement != b.nullElement
    ensures r.Err? ==> r.error == ValueError
    ensures r.Ok? ==> Keys(r.value.root) == Keys(a.root) + Keys(b.root)
    ensures r.Ok? ==> Valid(r.value.root) && r.value.nullElement == a.nullElement
  {
    if a.nullElement != b.nullElement then Err(ValueError)
    else Ok(FromSet(Keys(a.root) + Keys(b.root), a.nullElement))
  }

  /** Python `mytrie.TrieSet.intersection`: `ValueError` when the null elements
      differ, otherwise a fresh trie of the keys both contain. */
  ghost function Intersection<T(!new), E>(a: TrieSet<T, E>, b: TrieSet<T, E>): (r: Result<TrieSet<T, E>>)
    ensures r.Err? <==> a.nullElement != b.nullElement
    ensures r.Err? ==> r.error == ValueError
    ensures r.Ok? ==> Keys(r.value.root) == Keys(a.root) * Keys(b.root)
    ensures r.Ok? ==> Valid(r.value.root) && r.value.nullElement == a.nullElement
  {
    if a.nullElement != b.nullElement then Err(ValueError)
    else Ok(FromSet(Keys(a.root) * Keys(b.root), a.nullElement))
  }

  /** Python `mytrie.TrieSet.issubset`: every key enumerated from `a` is contained in
      `b`. Null elements are not compared. */
  function IsSubset<T(!new), E>(a: TrieSet<T, E>, b: TrieSet<T, E>): (r: bool)
    ensures r <==> Keys(a.root) <= Keys(b.root)
  {
    forall k | k in Keys(a.root) :: Contains(b.root, k)
  }

  /** Python `mytrie.TrieSet.issuperset`. */
  function IsSuperset<T(!new), E>(a: TrieSet<T, E>, b: TrieSet<T, E>): (r: bool)
    ensures r <==> Keys(b.root) <= Keys(a.root)
  {
    IsSubset(b, a)
  }

  /** Python `mytrie.TrieSet.__eq__`: mutual inclusion of the key sets. */
  function Equal<T(!new), E>(a: TrieSet<T, E>, b: TrieSet<T, E>): (r: bool)
    ensures r <==> Keys(a.root) == Keys(b.root)
  {
    IsSubset(a, b) && IsSubset(b, a)
  }

  /** For tries built by insertion, `__eq__` is equality of the trees:
      equal key sets force identical shapes. */
  lemma EqualIsSameTree<T(!new), E>(a: TrieSet<T, E>, b: TrieSet<T, E>)
    requires Valid(a.root) && Valid(b.root)
    ensures Equal(a, b) <==> a.root == b.root
  {
    if Equal(a, b) {
      SameKeysSameNode(a.root, b.root);
    }
  }

  /** `union` and `intersection` are commutative, and each fails exactly
      when the other order does. */
  lemma UnionIntersectionCommute<T(!new), E>(a: TrieSet<T, E>, b: TrieSet<T, E>)
    ensures Union(a, b).Ok? <==> Union(b, a).Ok?
    ensures Union(a, b).Ok? ==> Equal(Union(a, b).value, Union(b, a).value)
    ensures Intersection(a, b).Ok? <==> Intersection(b, a).Ok?
    ensures Intersection(a, b).Ok? ==> Equal(Intersection(a, b).value, Intersection(b, a).value)
  {
  }

  /** Each operand is a subset of a union and a superset of an intersection. */
  lemma UnionIntersectionBounds<T(!new), E>(a: TrieSet<T, E>, b: TrieSet<T, E>)
    requires a.nullElement == b.nullElement
    ensures IsSubset(a, Union(a, b).value) && IsSubset(b, Union(a, b).value)
    ensures IsSubset(Intersection(a, b).value, a) && IsSubset(Intersection(a, b).value, b)
  {
  }

  /** The example in the documentation of `mytrie.TrieSet.__eq__`: a repeated key
      makes no difference. */
  lemma RepeatedKeyExample()
    ensures Equal(FromSeq(["a", "b"], ""), FromSeq(["a", "b", "a"], ""))
  {
    FromSeqOrderFree(["a", "b"], ["a", "b", "a"], "");
  }
}
