/** The queries every trie class shares (Python `mytrie.TrieBase`). Each query
    takes the root node of a trie; keys are token sequences, the null element
    being `[]`. Results that `mytrie` produces lazily, in arbitrary order,
    are sets. */
module TrieBase {
  import opened Results
  import opened TrieNodes

  /** Membership: follow `key` token by token from the root; a missing child
      means "not contained", otherwise the last node's member flag decides. */
  function Contains<T(!new)>(n: Node<T>, key: seq<T>): (r: bool)
    ensures r <==> key in Keys(n)
    decreases |key|
  {
    if key == [] then
      EmptyInReach(n, true);
      n.member
    else
      ReachUncons(n, key, true);
      key[0] in n.children && Contains(n.children[key[0]], key[1..])
  }

  /** The node a token string leads to, or `None` as soon as a token has no
      child. */
  function NodeOf<T(!new)>(n: Node<T>, key: seq<T>): (r: Option<Node<T>>)
    ensures r.Some? <==> key in Paths(n)
    decreases |key|
  {
    if key == [] then
      EmptyInReach(n, false);
      Some(n)
    else
      ReachUncons(n, key, false);
      if key[0] in n.children then NodeOf(n.children[key[0]], key[1..]) else None
  }

  /** The subtree `NodeOf` finds is the quotient of the trie by `key`: `s` is
      reachable from it exactly when `key + s` is reachable from `n`. */
  lemma {:induction false} NodeOfReach<T(!new)>(n: Node<T>, key: seq<T>, membersOnly: bool, s: seq<T>)
    requires NodeOf(n, key).Some?
    ensures s in Reach(NodeOf(n, key).value, membersOnly) <==> key + s in Reach(n, membersOnly)
    decreases |key|
  {
    if key == [] {
      assert key + s == s;
    } else {
      NodeOfReach(n.children[key[0]], key[1..], membersOnly, s);
      ConsAppend(key, s);
      ReachCons(n, key[0], key[1..] + s, membersOnly);
    }
  }

  /** `NodeOfReach` for every string at once. */
  lemma NodeOfSubtree<T(!new)>(n: Node<T>, key: seq<T>, membersOnly: bool)
    requires NodeOf(n, key).Some?
    ensures forall s :: s in Reach(NodeOf(n, key).value, membersOnly) <==> key + s in Reach(n, membersOnly)
  {
    forall s
      ensures s in Reach(NodeOf(n, key).value, membersOnly) <==> key + s in Reach(n, membersOnly)
    {
      NodeOfReach(n, key, membersOnly, s);
    }
  }

  /** Looking up `p + q` is looking up `p`, then `q` from the node found. */
  lemma {:induction false} NodeOfAppend<T(!new)>(n: Node<T>, p: seq<T>, q: seq<T>)
    ensures NodeOf(n, p + q) == (match NodeOf(n, p)
                                 case None => None
                                 case Some(m) => NodeOf(m, q))
    decreases |p|
  {
    if p == [] {
      assert p + q == q;
    } else {
      assert (p + q)[0] == p[0];
      assert (p + q)[1..] == p[1..] + q;
      if p[0] in n.children {
        NodeOfAppend(n.children[p[0]], p[1..], q);
      }
    }
  }

  /** Python `mytrie.TrieBase.has_extension_of`: the lookup of `prefix` succeeds. */
  function HasExtensionOf<T(!new)>(root: Node<T>, prefix: seq<T>): (r: bool)
    ensures r <==> prefix in Paths(root)
  {
    NodeOf(root, prefix).Some?
  }

  /** `has_extension_of(p)` holds exactly when `p` is empty or a prefix of a
      stored key; in particular it holds of `[]` even in an empty trie. */
  lemma HasExtensionOfPrefix<T(!new)>(root: Node<T>, prefix: seq<T>)
    requires Valid(root)
    ensures HasExtensionOf(root, prefix) <==> prefix == [] || exists k :: k in Keys(root) && prefix <= k
  {
    PathsArePrefixesOfKeys(root, prefix);
  }

  /** The one-token extensions of `prefix` that lead to a node, or
      `KeyError` when `prefix` itself leads nowhere. */
  function Successors<T(!new)>(root: Node<T>, prefix: seq<T>): (r: Result<set<seq<T>>>)
    ensures r.Err? <==> prefix !in Paths(root)
    ensures r.Err? ==> r.error == KeyError
    ensures r.Ok? ==> forall q :: q in r.value <==> |q| == |prefix| + 1 && prefix <= q && q in Paths(root)
  {
    match NodeOf(root, prefix)
    case None => Err(KeyError)
    case Some(node) =>
      var r := set t | t in node.children :: prefix + [t];
      SuccessorsMeaning(root, prefix, node, r);
      Ok(r)
  }

  lemma SuccessorsMeaning<T(!new)>(root: Node<T>, prefix: seq<T>, node: Node<T>, r: set<seq<T>>)
    requires NodeOf(root, prefix) == Some(node)
    requires r == set t | t in node.children :: prefix + [t]
    ensures forall q :: q in r <==> |q| == |prefix| + 1 && prefix <= q && q in Paths(root)
  {
    forall q | q in r
      ensures |q| == |prefix| + 1 && prefix <= q && q in Paths(root)
    {
      var t :| t in node.children && q == prefix + [t];
      SuccessorStep(root, prefix, node, t);
    }
    forall q | |q| == |prefix| + 1 && prefix <= q && q in Paths(root)
      ensures q in r
    {
      PrefixPlusOne(prefix, q);
      SuccessorStep(root, prefix, node, q[|prefix|]);
    }
  }

  /** From the node `prefix` leads to, token `t` leads on exactly when it
      labels a child. */
  lemma SuccessorStep<T(!new)>(root: Node<T>, prefix: seq<T>, node: Node<T>, t: T)
    requires NodeOf(root, prefix) == Some(node)
    ensures prefix + [t] in Paths(root) <==> t in node.children
    ensures prefix <= prefix + [t]
  {
    OneStep(node, t);
    NodeOfReach(root, prefix, false, [t]);
    assert (prefix + [t])[..|prefix|] == prefix;
  }

  /** A one-token string leads to a node exactly when the token labels a
      child. */
  lemma OneStep<T>(node: Node<T>, t: T)
    ensures [t] in Paths(node) <==> t in node.children
  {
    assert [t] + [] == [t];
    ReachCons(node, t, [], false);
    if t in node.children {
      EmptyInReach(node.children[t], false);
    }
  }

  /** Every successor again has an extension among the stored keys. */
  lemma SuccessorsHaveExtensions<T(!new)>(root: Node<T>, prefix: seq<T>)
    requires Valid(root)
    requires Successors(root, prefix).Ok?
    ensures forall q :: q in Successors(root, prefix).value ==>
              HasExtensionOf(root, q) && exists k :: k in Keys(root) && q <= k
  {
    forall q | q in Successors(root, prefix).value
      ensures HasExtensionOf(root, q) && exists k :: k in Keys(root) && q <= k
    {
      PathsArePrefixesOfKeys(root, q);
    }
  }

  /** The strings `s` such that `prefix + s` is a key (`membersOnly`) or
      leads to a node (otherwise); `KeyError` when `prefix` leads nowhere.
      This is `mytrie.TrieBase.suffixes`: the walk of the sub-nodes below
      `prefix`, filtered. */
  function Suffixes<T(!new)>(root: Node<T>, prefix: seq<T>, membersOnly: bool): (r: Result<set<seq<T>>>)
    ensures r.Err? <==> prefix !in Paths(root)
    ensures r.Err? ==> r.error == KeyError
    ensures r.Ok? ==> forall s :: s in r.value <==> prefix + s in Reach(root, membersOnly)
  {
    match NodeOf(root, prefix)
    case None => Err(KeyError)
    case Some(node) =>
      NodeOfSubtree(root, prefix, membersOnly);
      Ok(Reach(node, membersOnly))
  }

  /** Without the member filter the empty suffix is always yielded, and under
      the insertion invariant the other suffixes are those completing `prefix`
      to a prefix of a stored key. */
  lemma SuffixesOfPrefixes<T(!new)>(root: Node<T>, prefix: seq<T>)
    requires Valid(root)
    requires Suffixes(root, prefix, false).Ok?
    ensures [] in Suffixes(root, prefix, false).value
    ensures forall s :: s in Suffixes(root, prefix, false).value <==>
              prefix + s == [] || exists k :: k in Keys(root) && prefix + s <= k
  {
    assert prefix + [] == prefix;
    forall s
      ensures s in Suffixes(root, prefix, false).value <==>
              prefix + s == [] || exists k :: k in Keys(root) && prefix + s <= k
    {
      PathsArePrefixesOfKeys(root, prefix + s);
    }
  }

  /** `suffixes` yields the members too: each `prefix + s` is contained. */
  lemma SuffixesAreMembers<T(!new)>(root: Node<T>, prefix: seq<T>)
    requires Suffixes(root, prefix, true).Ok?
    ensures forall s :: s in Suffixes(root, prefix, true).value ==> Contains(root, prefix + s)
  {
  }

  /** The extensions of `prefix`: `prefix` followed by each suffix. */
  function Extensions<T(!new)>(root: Node<T>, prefix: seq<T>, membersOnly: bool): (r: Result<set<seq<T>>>)
    ensures r.Err? <==> prefix !in Paths(root)
    ensures r.Err? ==> r.error == KeyError
    ensures r.Ok? ==> forall q :: q in r.value <==> prefix <= q && q in Reach(root, membersOnly)
  {
    var suffixes :- Suffixes(root, prefix, membersOnly);
    var r := set s | s in suffixes :: prefix + s;
    ExtensionsMeaning(root, prefix, membersOnly, suffixes, r);
    Ok(r)
  }

  lemma ExtensionsMeaning<T(!new)>(root: Node<T>, prefix: seq<T>, membersOnly: bool, suffixes: set<seq<T>>, r: set<seq<T>>)
    requires forall s :: s in suffixes <==> prefix + s in Reach(root, membersOnly)
    requires r == set s | s in suffixes :: prefix + s
    ensures forall q :: q in r <==> prefix <= q && q in Reach(root, membersOnly)
  {
    forall q | prefix <= q && q in Reach(root, membersOnly)
      ensures q in r
    {
      assert q == prefix + q[|prefix|..];
    }
  }

  /** With the empty prefix, both `suffixes` and `extensions` enumerate the
      whole key set. */
  lemma EmptyPrefixGivesAllKeys<T(!new)>(root: Node<T>)
    ensures Suffixes(root, [], true) == Ok(Keys(root))
    ensures Extensions(root, [], true) == Ok(Keys(root))
  {
    EmptyPrefixSuffixes(root);
    EmptyPrefixExtensions(root);
  }

  lemma EmptyPrefixSuffixes<T(!new)>(root: Node<T>)
    ensures Suffixes(root, [], true) == Ok(Keys(root))
  {
    assert NodeOf(root, []) == Some(root);
  }

  lemma EmptyPrefixExtensions<T(!new)>(root: Node<T>)
    ensures Extensions(root, [], true) == Ok(Keys(root))
  {
    EmptyInReach(root, false);
    var e := Extensions(root, [], true).value;
    forall q
      ensures q in e <==> q in Keys(root)
    {
      assert [] <= q;
    }
    SameElementsSameSet(e, Keys(root));
  }

  /** The longest suffix completing `prefix` to a stored key, or `[]` when no
      non-empty one exists; `KeyError` when `prefix` leads nowhere. Like
      `mytrie.TrieBase.maximal_suffix`, it walks every node below `prefix` in arbitrary order and keeps
      the first strictly longer member suffix. */
  method MaximalSuffix<T(!new)>(root: Node<T>, prefix: seq<T>) returns (r: Result<seq<T>>)
    ensures r.Err? <==> prefix !in Paths(root)
    ensures r.Err? ==> r.error == KeyError
    ensures r.Ok? ==> r.value == [] || prefix + r.value in Keys(root)
    ensures r.Ok? ==> forall s :: prefix + s in Keys(root) ==> |s| <= |r.value|
  {
    var found := NodeOf(root, prefix);
    if found.None? {
      return Err(KeyError);
    }
    var node := found.value;
    KeysArePaths(node);
    var maxSuff: seq<T> := [];
    var pending := Paths(node);
    while pending != {}
      invariant pending <= Paths(node)
      invariant maxSuff == [] || maxSuff in Keys(node)
      invariant forall s :: s in Keys(node) && s !in pending ==> |s| <= |maxSuff|
      decreases pending
    {
      var suff :| suff in pending;
      if Contains(node, suff) && |suff| > |maxSuff| {
        maxSuff := suff;
      }
      pending := pending - {suff};
    }
    NodeOfSubtree(root, prefix, true);
    return Ok(maxSuff);
  }

  /** `prefix` followed by its maximal suffix: the longest stored key
      extending `prefix`, or `prefix` itself when there is none longer. */
  method MaximalExtension<T(!new)>(root: Node<T>, prefix: seq<T>) returns (r: Result<seq<T>>)
    ensures r.Err? <==> prefix !in Paths(root)
    ensures r.Err? ==> r.error == KeyError
    ensures r.Ok? ==> prefix <= r.value && (r.value == prefix || r.value in Keys(root))
    ensures r.Ok? ==> forall k :: k in Keys(root) && prefix <= k ==> |k| <= |r.value|
  {
    var suffix := MaximalSuffix(root, prefix);
    if suffix.Err? {
      return Err(suffix.error);
    }
    r := Ok(prefix + suffix.value);
    forall k | k in Keys(root) && prefix <= k
      ensures |k| <= |prefix + suffix.value|
    {
      assert k == prefix + k[|prefix|..];
    }
  }

  /** The stored keys that are prefixes of `text`, found on the single
      path `text` spells; a missing child ends the walk without error. */
  function Prefixes<T(!new)>(n: Node<T>, text: seq<T>): (r: set<seq<T>>)
    ensures forall k :: k in r <==> k <= text && k in Keys(n)
    decreases |text|
  {
    var here := if n.member then {[]} else {};
    if text != [] && text[0] in n.children then
      var below := Prefixes(n.children[text[0]], text[1..]);
      var r := here + set k | k in below :: [text[0]] + k;
      PrefixesStep(n, text, below, r);
      r
    else
      PrefixesStop(n, text);
      here
  }

  lemma PrefixesStep<T(!new)>(n: Node<T>, text: seq<T>, below: set<seq<T>>, r: set<seq<T>>)
    requires text != [] && text[0] in n.children
    requires forall k :: k in below <==> k <= text[1..] && k in Keys(n.children[text[0]])
    requires r == (if n.member then {[]} else {}) + set k | k in below :: [text[0]] + k
    ensures forall k :: k in r <==> k <= text && k in Keys(n)
  {
    EmptyInReach(n, true);
    forall k | k != []
      ensures k in r <==> k <= text && k in Keys(n)
    {
      ReachUncons(n, k, true);
      if k <= text {
        assert k == [text[0]] + k[1..];
        assert k[1..] <= text[1..];
      }
      if k in r {
        var k' :| k' in below && k == [text[0]] + k';
        assert k' == k[1..];
      }
    }
  }

  lemma PrefixesStop<T(!new)>(n: Node<T>, text: seq<T>)
    requires !(text != [] && text[0] in n.children)
    ensures forall k :: k in (if n.member then {[]} else {}) <==> k <= text && k in Keys(n)
  {
    EmptyInReach(n, true);
    forall k | k != [] && k <= text
      ensures k !in Keys(n)
    {
      ReachUncons(n, k, true);
    }
  }

  /** The longest stored key that is a prefix of `text`, or `KeyError`
      when there is none. Like `mytrie.TrieBase.maximal_prefix`, it walks the path `text` spells
      and remembers the last depth at which a member node was met. */
  method MaximalPrefix<T(!new)>(root: Node<T>, text: seq<T>) returns (r: Result<seq<T>>)
    ensures r.Err? <==> forall k :: k in Keys(root) ==> !(k <= text)
    ensures r.Err? ==> r.error == KeyError
    ensures r.Ok? ==> r.value <= text && r.value in Keys(root)
    ensures r.Ok? ==> forall k :: k in Keys(root) && k <= text ==> |k| <= |r.value|
  {
    var node := root;
    var i := 0;
    var mi := -1;
    assert text[..0] == [];
    MemberAtNode(root, text[..0], node);
    if node.member {
      mi := 0;
    }
    while i < |text| && text[i] in node.children
      invariant 0 <= i <= |text|
      invariant NodeOf(root, text[..i]) == Some(node)
      invariant -1 <= mi <= i
      invariant mi >= 0 ==> text[..mi] in Keys(root)
      invariant forall j :: mi < j <= i ==> text[..j] !in Keys(root)
    {
      WalkStep(root, text, i, node);
      node := node.children[text[i]];
      if node.member {
        mi := i + 1;
      } else {
        NoKeyUpTo(root, text, mi, i);
      }
      i := i + 1;
    }
    PathBreaks(root, text, i, node);
    LongestTake(root, text, mi);
    if mi < 0 {
      return Err(KeyError);
    }
    return Ok(text[..mi]);
  }

  /** One step of the walk along `text`: the child for `text[i]` is the node
      `text[..i + 1]` leads to, and it is a member exactly when that prefix is
      stored. */
  lemma WalkStep<T(!new)>(root: Node<T>, text: seq<T>, i: int, node: Node<T>)
    requires 0 <= i < |text| && text[i] in node.children
    requires NodeOf(root, text[..i]) == Some(node)
    ensures NodeOf(root, text[..i + 1]) == Some(node.children[text[i]])
    ensures node.children[text[i]].member <==> text[..i + 1] in Keys(root)
  {
    assert text[..i + 1] == text[..i] + [text[i]];
    NodeOfAppend(root, text[..i], [text[i]]);
    MemberAtNode(root, text[..i + 1], node.children[text[i]]);
  }

  /** The walk's record of stored prefixes, extended by one unstored
      prefix. */
  lemma NoKeyUpTo<T>(root: Node<T>, text: seq<T>, mi: int, i: int)
    requires -1 <= mi && 0 <= i < |text| && text[..i + 1] !in Keys(root)
    requires forall j :: mi < j <= i ==> text[..j] !in Keys(root)
    ensures forall j :: mi < j <= i + 1 ==> text[..j] !in Keys(root)
  {
  }

  /** When no prefix of `text` longer than `mi` tokens is stored, every
      stored prefix of `text` has at most `mi` tokens. */
  lemma LongestTake<T>(root: Node<T>, text: seq<T>, mi: int)
    requires -1 <= mi <= |text|
    requires mi >= 0 ==> text[..mi] in Keys(root)
    requires forall j :: mi < j <= |text| ==> text[..j] !in Keys(root)
    ensures forall k :: k in Keys(root) && k <= text ==> |k| <= mi
    ensures mi >= 0 ==> text[..mi] <= text
    ensures mi < 0 <==> forall k :: k in Keys(root) ==> !(k <= text)
  {
    forall k | k in Keys(root) && k <= text
      ensures |k| <= mi
    {
      PrefixIsTake(k, text);
    }
  }

  /** A prefix of `text` is the first `|k|` tokens of `text`. */
  lemma PrefixIsTake<T>(k: seq<T>, text: seq<T>)
    requires k <= text
    ensures |k| <= |text| && k == text[..|k|]
  {
  }

  /** Once the walk along `text` stops at depth `i`, no longer prefix of
      `text` is stored. */
  lemma PathBreaks<T(!new)>(root: Node<T>, text: seq<T>, i: nat, node: Node<T>)
    requires i <= |text|
    requires NodeOf(root, text[..i]) == Some(node)
    requires i == |text| || text[i] !in node.children
    ensures forall j :: i < j <= |text| ==> text[..j] !in Keys(root)
  {
    if i < |text| {
      assert text[..i + 1] == text[..i] + [text[i]];
      NodeOfAppend(root, text[..i], [text[i]]);
      KeysArePaths(root);
      forall j | i < j <= |text|
        ensures text[..j] !in Paths(root)
      {
        assert text[..j] == text[..i + 1] + text[i + 1..j];
        if text[..j] in Paths(root) {
          PathsPrefixClosed(root, text[..i + 1], text[i + 1..j]);
        }
      }
    }
  }

  /** The node a key leads to is a member exactly when the key is stored. */
  lemma MemberAtNode<T(!new)>(root: Node<T>, key: seq<T>, node: Node<T>)
    requires NodeOf(root, key) == Some(node)
    ensures node.member <==> key in Keys(root)
  {
    EmptyInReach(node, true);
    NodeOfReach(root, key, true, []);
    assert key + [] == key;
  }

  /** The summed sizes of the strings reachable from each node of a stack. */
  ghost function StackSize<T>(stack: seq<Node<T>>, membersOnly: bool): nat {
    if stack == [] then 0
    else StackSize(stack[..|stack| - 1], membersOnly) + |Reach(stack[|stack| - 1], membersOnly)|
  }

  lemma StackPush<T>(stack: seq<Node<T>>, x: Node<T>, membersOnly: bool)
    ensures StackSize(stack + [x], membersOnly) == StackSize(stack, membersOnly) + |Reach(x, membersOnly)|
  {
    assert (stack + [x])[..|stack|] == stack;
  }

  /** Pushes every child of `m` onto `stack`, in arbitrary order. */
  method PushChildren<T>(stack: seq<Node<T>>, m: map<T, Node<T>>) returns (r: seq<Node<T>>)
    ensures StackSize(r, true) == StackSize(stack, true) + |Under(m, m.Keys, true)|
    ensures StackSize(r, false) == StackSize(stack, false) + |Under(m, m.Keys, false)|
  {
    r := stack;
    var rest := m.Keys;
    while rest != {}
      invariant rest <= m.Keys
      invariant StackSize(r, true) + |Under(m, rest, true)| == StackSize(stack, true) + |Under(m, m.Keys, true)|
      invariant StackSize(r, false) + |Under(m, rest, false)| == StackSize(stack, false) + |Under(m, m.Keys, false)|
      decreases rest
    {
      var t :| t in rest;
      UnderSplit(m, rest, t, true);
      UnderSplit(m, rest, t, false);
      StackPush(r, m[t], true);
      StackPush(r, m[t], false);
      r := r + [m[t]];
      rest := rest - {t};
    }
    UnderNone(m, true);
    UnderNone(m, false);
  }

  /** Python `mytrie.TrieBase.__len__`: a depth-first walk with an explicit stack that
      starts from the root's children, so it counts the distinct non-empty
      stored keys; the root's own member flag is never looked at. */
  method Len<T>(root: Node<T>) returns (n: nat)
    ensures n == |Keys(root) - {[]}|
  {
    NonEmptyKeys(root);
    var stack := PushChildren([], root.children);
    n := 0;
    while stack != []
      invariant n + StackSize(stack, true) == |Keys(root) - {[]}|
      decreases StackSize(stack, false)
    {
      var node := stack[|stack| - 1];
      stack := stack[..|stack| - 1];
      if node.member {
        n := n + 1;
      }
      ReachCard(node, true);
      ReachCard(node, false);
      stack := PushChildren(stack, node.children);
    }
  }

  /** When the empty key is stored, `Len` is one less than the number of
      stored keys (the number of keys iteration yields). */
  lemma LenMissesEmptyKey<T>(root: Node<T>)
    requires root.member
    ensures |Keys(root) - {[]}| + 1 == |Keys(root)|
  {
    EmptyInReach(root, true);
  }

  /** The count the comment in `mytrie.TrieBase.__len__` promises, `len(tuple(self))`: every
      distinct stored key, the empty one included. */
  method CountKeys<T>(root: Node<T>) returns (n: nat)
    ensures n == |Keys(root)|
  {
    n := Len(root);
    EmptyInReach(root, true);
    if root.member {
      n := n + 1;
    }
  }
}
