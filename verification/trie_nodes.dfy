/** The trie tree shared by every trie class: nodes, the sets of token strings
    they represent, the invariant insertion keeps, and the structural facts the
    queries rely on. */
module TrieNodes {

  /** A node owns one child per token and records whether the path from the
      root to it spells a stored key (the `[children, is_member]` list of Python `mytrie`). */
  datatype Node<T> = Node(children: map<T, Node<T>>, member: bool)

  /** The node a fresh trie starts with, and the node insertion creates for a
      missing token. */
  function EmptyNode<T>(): Node<T> {
    Node(map[], false)
  }

  /** The contribution of `n` itself to `Reach`: the empty suffix, when `n` is
      selected. */
  function Here<T>(n: Node<T>, membersOnly: bool): set<seq<T>> {
    if !membersOnly || n.member then {[]} else {}
  }

  /** The token strings leading from `n` down to the nodes of its subtree,
      `n` itself included (as `[]`); with `membersOnly`, only those ending at
      member nodes. This is what a depth-first walk of the subtree yields
      (Python `mytrie.TrieBase.__generateKeys`, and `__generateSubNodes` for
      every node). */
  function Reach<T>(n: Node<T>, membersOnly: bool): (r: set<seq<T>>)
    ensures [] in r <==> !membersOnly || n.member
    decreases n
  {
    Here(n, membersOnly) +
    (set t, k | t in n.children && k in Reach(n.children[t], membersOnly) :: [t] + k)
  }

  /** The stored keys below `n`, relative to `n`. */
  function Keys<T>(n: Node<T>): set<seq<T>> {
    Reach(n, true)
  }

  /** Every token string that leads from `n` to an existing node. */
  function Paths<T>(n: Node<T>): set<seq<T>> {
    Reach(n, false)
  }

  /** The strings below the children of `m` whose first token is in `ts`. */
  function Under<T>(m: map<T, Node<T>>, ts: set<T>, membersOnly: bool): set<seq<T>> {
    set t, k | t in ts && t in m && k in Reach(m[t], membersOnly) :: [t] + k
  }

  /** Every node of the subtree, `n` included, has a member at or below it. */
  ghost predicate Pruned<T>(n: Node<T>)
    decreases n
  {
    Keys(n) != {} && forall t :: t in n.children ==> Pruned(n.children[t])
  }

  /** The invariant insertion keeps: every node except the root leads to a
      member. The root of an empty trie has no members and no children. */
  ghost predicate Valid<T>(root: Node<T>) {
    forall t :: t in root.children ==> Pruned(root.children[t])
  }

  lemma ReachSplit<T>(n: Node<T>, membersOnly: bool)
    ensures Reach(n, membersOnly) == Here(n, membersOnly) + Under(n.children, n.children.Keys, membersOnly)
    ensures [] !in Under(n.children, n.children.Keys, membersOnly)
  {
  }

  /** The empty string is reachable from every node, and is a key exactly
      when the node is a member. */
  lemma EmptyInReach<T>(n: Node<T>, membersOnly: bool)
    ensures [] in Reach(n, membersOnly) <==> !membersOnly || n.member
  {
  }

  /** Stepping one token down: `[t] + s` is reachable from `n` exactly when
      `t` labels a child of `n` and `s` is reachable from that child. */
  lemma ReachCons<T>(n: Node<T>, t: T, s: seq<T>, membersOnly: bool)
    ensures [t] + s in Reach(n, membersOnly) <==> t in n.children && s in Reach(n.children[t], membersOnly)
  {
    if [t] + s in Reach(n, membersOnly) {
      assert [t] + s != [];
      var t', k :| t' in n.children && k in Reach(n.children[t'], membersOnly) && [t'] + k == [t] + s;
      assert t' == ([t'] + k)[0];
      assert k == ([t'] + k)[1..];
    }
  }

  /** `ReachCons` for a non-empty string given as a whole. */
  lemma ReachUncons<T>(n: Node<T>, q: seq<T>, membersOnly: bool)
    requires q != []
    ensures q in Reach(n, membersOnly) <==> q[0] in n.children && q[1..] in Reach(n.children[q[0]], membersOnly)
  {
    assert q == [q[0]] + q[1..];
    ReachCons(n, q[0], q[1..], membersOnly);
  }

  /** Every key leads to an existing node. */
  lemma {:induction false} KeysArePaths<T>(n: Node<T>)
    ensures Keys(n) <= Paths(n)
    decreases n
  {
    forall q | q in Keys(n)
      ensures q in Paths(n)
    {
      if q != [] {
        ReachUncons(n, q, true);
        KeysArePaths(n.children[q[0]]);
        ReachUncons(n, q, false);
      }
    }
  }

  /** The paths of a tree are closed under taking prefixes. */
  lemma {:induction false} PathsPrefixClosed<T>(n: Node<T>, p: seq<T>, q: seq<T>)
    requires p + q in Paths(n)
    ensures p in Paths(n)
    decreases |p|
  {
    if p != [] {
      ReachUncons(n, p + q, false);
      assert (p + q)[1..] == p[1..] + q;
      PathsPrefixClosed(n.children[p[0]], p[1..], q);
      ReachUncons(n, p, false);
    }
  }

  /** In a pruned subtree every path extends to a key. */
  lemma {:induction false} PrunedPathExtends<T>(n: Node<T>, q: seq<T>)
    requires Pruned(n)
    requires q in Paths(n)
    ensures exists k :: k in Keys(n) && q <= k
    decreases |q|
  {
    if q == [] {
      var k :| k in Keys(n);
      assert q <= k;
    } else {
      ReachUncons(n, q, false);
      var c := n.children[q[0]];
      PrunedPathExtends(c, q[1..]);
      var k' :| k' in Keys(c) && q[1..] <= k';
      ExtendThroughChild(n, q, k');
    }
  }

  /** A key below the child that `q` starts into, extending the rest of `q`,
      gives a key of `n` extending `q`. */
  lemma ExtendThroughChild<T>(n: Node<T>, q: seq<T>, k': seq<T>)
    requires q != [] && q[0] in n.children
    requires k' in Keys(n.children[q[0]]) && q[1..] <= k'
    ensures [q[0]] + k' in Keys(n) && q <= [q[0]] + k'
  {
    ReachCons(n, q[0], k', true);
    PrefixCons(q[0], q[1..], k');
    assert q == [q[0]] + q[1..];
  }

  /** Putting the same token in front keeps the prefix order. */
  lemma PrefixCons<T>(t: T, a: seq<T>, b: seq<T>)
    requires a <= b
    ensures [t] + a <= [t] + b
  {
    assert ([t] + b)[..|[t] + a|] == [t] + b[..|a|];
  }

  /** A non-empty string followed by `s` is its first token followed by the
      rest and `s`. */
  lemma ConsAppend<T>(key: seq<T>, s: seq<T>)
    requires key != []
    ensures key + s == [key[0]] + (key[1..] + s)
  {
  }

  /** A string one token longer than its prefix `p` is `p` and that token. */
  lemma PrefixPlusOne<T>(p: seq<T>, q: seq<T>)
    requires p <= q && |q| == |p| + 1
    ensures q == p + [q[|p|]]
  {
    assert q == q[..|p|] + [q[|p|]];
  }

  /** Under the insertion invariant, a non-empty path extends to a key. */
  lemma PathExtendsToKey<T>(root: Node<T>, p: seq<T>)
    requires Valid(root)
    requires p != [] && p in Paths(root)
    ensures exists k :: k in Keys(root) && p <= k
  {
    ReachUncons(root, p, false);
    var c := root.children[p[0]];
    PrunedPathExtends(c, p[1..]);
    var k' :| k' in Keys(c) && p[1..] <= k';
    ExtendThroughChild(root, p, k');
  }

  /** Every prefix of a key leads to a node. */
  lemma PrefixOfKeyIsPath<T>(root: Node<T>, p: seq<T>, k: seq<T>)
    requires k in Keys(root) && p <= k
    ensures p in Paths(root)
  {
    KeysArePaths(root);
    assert p + k[|p|..] == k;
    PathsPrefixClosed(root, p, k[|p|..]);
  }

  /** Under the insertion invariant, the paths of a trie are exactly the
      empty string and the prefixes of its stored keys. */
  lemma PathsArePrefixesOfKeys<T>(root: Node<T>, p: seq<T>)
    requires Valid(root)
    ensures p in Paths(root) <==> p == [] || exists k :: k in Keys(root) && p <= k
  {
    if p == [] {
      EmptyInReach(root, false);
    } else {
      if p in Paths(root) {
        PathExtendsToKey(root, p);
      }
      if k :| k in Keys(root) && p <= k {
        PrefixOfKeyIsPath(root, p, k);
      }
    }
  }

  /** A pruned node satisfies the invariant when taken as a root. */
  lemma PrunedIsValid<T>(n: Node<T>)
    requires Pruned(n)
    ensures Valid(n)
  {
  }

  /** A child of a root whose keys are known: its keys are the keys of the
      root that start with its token, minus that token. */
  lemma ChildKeys<T>(a: Node<T>, t: T, s: seq<T>)
    requires t in a.children
    ensures s in Keys(a.children[t]) <==> [t] + s in Keys(a)
  {
    ReachCons(a, t, s, true);
  }

  /** Under the invariant, a token labels a child exactly when some key
      starts with it. */
  lemma ChildIffKeyStarts<T>(a: Node<T>, t: T)
    requires Valid(a)
    ensures t in a.children <==> exists s :: [t] + s in Keys(a)
  {
    if t in a.children {
      var k :| k in Keys(a.children[t]);
      ReachCons(a, t, k, true);
    }
    if s :| [t] + s in Keys(a) {
      ReachCons(a, t, s, true);
    }
  }

  /** Tries with the same keys give a shared token children with the same
      keys. */
  lemma SameKeysSameChildKeys<T>(a: Node<T>, b: Node<T>, t: T)
    requires Keys(a) == Keys(b)
    requires t in a.children && t in b.children
    ensures Keys(a.children[t]) == Keys(b.children[t])
  {
    var ka, kb := Keys(a.children[t]), Keys(b.children[t]);
    forall s
      ensures s in ka <==> s in kb
    {
      ChildKeys(a, t, s);
      ChildKeys(b, t, s);
    }
    SameElementsSameSet(ka, kb);
  }

  lemma SameElementsSameSet<T>(ka: set<seq<T>>, kb: set<seq<T>>)
    requires forall s :: s in ka <==> s in kb
    ensures ka == kb
  {
  }

  /** Two tries that keep the insertion invariant and store the same keys are
      the same tree: a trie's shape is determined by its key set. */
  lemma {:induction false} SameKeysSameNode<T>(a: Node<T>, b: Node<T>)
    requires Valid(a) && Valid(b)
    requires Keys(a) == Keys(b)
    ensures a == b
    decreases a
  {
    EmptyInReach(a, true);
    EmptyInReach(b, true);
    forall t
      ensures t in a.children <==> t in b.children
    {
      ChildIffKeyStarts(a, t);
      ChildIffKeyStarts(b, t);
    }
    forall t | t in a.children
      ensures a.children[t] == b.children[t]
    {
      SameKeysSameChildKeys(a, b, t);
      SameKeysSameNode(a.children[t], b.children[t]);
    }
    assert a.children == b.children;
  }

  /** Prefixing one token keeps the size of a set of strings. */
  lemma {:induction false} PrependCard<T>(t: T, s: set<seq<T>>)
    ensures |set k | k in s :: [t] + k| == |s|
    decreases s
  {
    if s != {} {
      var x :| x in s;
      var rest := s - {x};
      PrependCard(t, rest);
      var img := set k | k in s :: [t] + k;
      var imgRest := set k | k in rest :: [t] + k;
      assert img == imgRest + {[t] + x};
      forall y | y in rest
        ensures [t] + y != [t] + x
      {
        assert y == ([t] + y)[1..] && x == ([t] + x)[1..];
      }
    }
  }

  /** The strings below one child `t` are `[t]` followed by that child's
      strings; no other child contributes a string starting with `t`. */
  lemma UnderSplitSets<T>(m: map<T, Node<T>>, ts: set<T>, t: T, membersOnly: bool)
    requires t in ts && t in m
    ensures Under(m, ts, membersOnly) ==
            Under(m, ts - {t}, membersOnly) + (set k | k in Reach(m[t], membersOnly) :: [t] + k)
    ensures Under(m, ts - {t}, membersOnly) !! (set k | k in Reach(m[t], membersOnly) :: [t] + k)
  {
    var rest := Under(m, ts - {t}, membersOnly);
    var img := set k | k in Reach(m[t], membersOnly) :: [t] + k;
    forall q | q in rest
      ensures q != [] && q[0] != t
    {
      var t1, k1 :| t1 in ts - {t} && t1 in m && k1 in Reach(m[t1], membersOnly) && q == [t1] + k1;
    }
    forall q | q in img
      ensures q != [] && q[0] == t
    {
    }
  }

  /** Taking one child out of `Under` removes exactly the strings below it. */
  lemma UnderSplit<T>(m: map<T, Node<T>>, ts: set<T>, t: T, membersOnly: bool)
    requires t in ts && t in m
    ensures |Under(m, ts, membersOnly)| == |Under(m, ts - {t}, membersOnly)| + |Reach(m[t], membersOnly)|
  {
    UnderSplitSets(m, ts, t, membersOnly);
    PrependCard(t, Reach(m[t], membersOnly));
  }

  /** A node's reachable set is its own contribution plus its children's,
      the two being disjoint. */
  lemma ReachCard<T>(n: Node<T>, membersOnly: bool)
    ensures |Reach(n, membersOnly)| == (if !membersOnly || n.member then 1 else 0) + |Under(n.children, n.children.Keys, membersOnly)|
  {
    ReachSplit(n, membersOnly);
    assert Here(n, membersOnly) * Under(n.children, n.children.Keys, membersOnly) == {};
  }

  /** The non-empty keys of a trie are exactly those below the root's
      children. */
  lemma NonEmptyKeys<T>(root: Node<T>)
    ensures Keys(root) - {[]} == Under(root.children, root.children.Keys, true)
  {
    ReachSplit(root, true);
  }

  /** `Under` over no tokens is empty. */
  lemma UnderNone<T>(m: map<T, Node<T>>, membersOnly: bool)
    ensures Under(m, {}, membersOnly) == {}
  {
  }
}
