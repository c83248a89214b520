/**
 * The shape of the crit-nib index of src/critnib.c as a value: a slot is NULL, a leaf
 * (key, value) or an internal node with a discriminator (byte, bit) and 16 child slots.
 * The tagged pointers of the C code (low bit set for a leaf) become the constructors.
 *
 * Mapping gives the finite map a tree denotes, WellFormed the structural invariant the
 * operations maintain, and paths of child indices stand for the C `parent`/`pp`
 * pointers into the tree.
 */
module CritnibTree {
  import opened CritnibBits

  datatype Tree<V> = Empty | Leaf(key: Key, value: V) | Node(byte: nat, bit: nat, child: seq<Tree<V>>)

  /** Linear position of an internal node's discriminating nibble. */
  function NodePos<V>(t: Tree<V>): nat
    requires t.Node?
  {
    Pos(t.byte, t.bit)
  }

  /** The map from keys to values held by the leaves of a tree. */
  ghost function Mapping<V>(t: Tree<V>): map<Key, V>
    decreases t, 1, 0
  {
    match t
    case Empty => map[]
    case Leaf(k, v) => map[k := v]
    case Node(_, _, _) => ChildMapping(t, 0)
  }

  /** The union of the maps of the children i, i + 1, ... of a node. */
  ghost function ChildMapping<V>(t: Tree<V>, i: nat): map<Key, V>
    requires t.Node?
    decreases t, 0, |t.child| - i
  {
    if i >= |t.child| then map[] else Mapping(t.child[i]) + ChildMapping(t, i + 1)
  }

  /** Every key stored under child i of node t has its nibble at t's discriminator equal to i. */
  ghost predicate Routed<V>(t: Tree<V>)
    requires t.Node?
  {
    forall i, k :: 0 <= i < |t.child| && k in Mapping(t.child[i]) ==>
      NodePos(t) < 2 * |k| && Nib(k, NodePos(t)) == i
  }

  /** At least two child slots are occupied. */
  ghost predicate Branching<V>(cs: seq<Tree<V>>)
  {
    exists i, j :: 0 <= i < j < |cs| && !cs[i].Empty? && !cs[j].Empty?
  }

  /** All keys stored under node t agree on every nibble before t's discriminator. */
  ghost predicate Prefixed<V>(t: Tree<V>)
    requires t.Node?
  {
    forall k1, k2 :: k1 in Mapping(t) && k2 in Mapping(t) ==> Agree(k1, k2, NodePos(t))
  }

  /** The structural invariant of the index. */
  ghost predicate WellFormed<V>(t: Tree<V>)
    decreases t
  {
    match t
    case Empty => true
    case Leaf(_, _) => true
    case Node(_, bit, cs) =>
      && (bit == 0 || bit == 4)
      && |cs| == SLNODES
      && Branching(cs)
      && Routed(t)
      && Prefixed(t)
      && forall i :: 0 <= i < |cs| ==> WellFormed(cs[i])
  }

  lemma {:induction false} ChildMappingAt<V>(t: Tree<V>, i: nat, k: Key)
    requires t.Node? && Routed(t)
    decreases |t.child| - i
    ensures k in ChildMapping(t, i) <==>
      (NodePos(t) < 2 * |k| && i <= Nib(k, NodePos(t)) < |t.child| && k in Mapping(t.child[Nib(k, NodePos(t))]))
    ensures k in ChildMapping(t, i) ==> ChildMapping(t, i)[k] == Mapping(t.child[Nib(k, NodePos(t))])[k]
  {
    if i < |t.child| {
      ChildMappingAt(t, i + 1, k);
    }
  }

  /**
   * Descent step: a key is stored under a routed node exactly when it is long enough for
   * the node's discriminator and is stored under the child its nibble selects.
   */
  lemma NodeMember<V>(t: Tree<V>, k: Key)
    requires t.Node? && Routed(t)
    ensures k in Mapping(t) <==>
      (NodePos(t) < 2 * |k| && Nib(k, NodePos(t)) < |t.child| && k in Mapping(t.child[Nib(k, NodePos(t))]))
    ensures k in Mapping(t) ==> Mapping(t)[k] == Mapping(t.child[Nib(k, NodePos(t))])[k]
  {
    ChildMappingAt(t, 0, k);
  }

  /** Every entry under a child of a well-formed node is an entry of the node. */
  lemma ChildSub<V>(t: Tree<V>, i: nat)
    requires t.Node? && WellFormed(t) && i < |t.child|
    ensures WellFormed(t.child[i])
    ensures forall k :: k in Mapping(t.child[i]) ==> k in Mapping(t) && Mapping(t)[k] == Mapping(t.child[i])[k]
  {
    forall k | k in Mapping(t.child[i])
      ensures k in Mapping(t) && Mapping(t)[k] == Mapping(t.child[i])[k]
    {
      NodeMember(t, k);
    }
  }

  /** any_leaf: the first leaf found by scanning child slots in index order, descending into nodes. */
  function AnyLeaf<V>(t: Tree<V>): (r: Tree<V>)
    requires t.Node?
    decreases t, 1, 0
    ensures r.Empty? || r.Leaf?
    ensures r.Leaf? ==> r.key in Mapping(t)
    ensures WellFormed(t) ==> r.Leaf?
  {
    AnyLeafFrom(t, 0)
  }

  function AnyLeafFrom<V>(t: Tree<V>, i: nat): (r: Tree<V>)
    requires t.Node?
    decreases t, 0, |t.child| - i
    ensures r.Empty? || r.Leaf?
    ensures r.Leaf? ==> r.key in ChildMapping(t, i)
    ensures WellFormed(t) && (exists j :: i <= j < |t.child| && !t.child[j].Empty?) ==> r.Leaf?
  {
    if i >= |t.child| then Empty
    else match t.child[i]
      case Empty => AnyLeafFrom(t, i + 1)
      case Leaf(_, _) => t.child[i]
      case Node(_, _, _) => AnyLeaf(t.child[i])
  }

  /** A path of child indices that leads through internal nodes of t. */
  ghost predicate IsPath<V>(t: Tree<V>, p: seq<nat>)
    decreases p
  {
    p == [] || (t.Node? && p[0] < |t.child| && IsPath(t.child[p[0]], p[1..]))
  }

  /** The slot a path leads to: what `*parent` reads in the C code. */
  function At<V>(t: Tree<V>, p: seq<nat>): Tree<V>
    requires IsPath(t, p)
    decreases p
  {
    if p == [] then t else At(t.child[p[0]], p[1..])
  }

  /** Overwrite the slot a path leads to: what `*parent = s` does in the C code. */
  function ReplaceAt<V>(t: Tree<V>, p: seq<nat>, s: Tree<V>): Tree<V>
    requires IsPath(t, p)
    decreases p
  {
    if p == [] then s else Node(t.byte, t.bit, t.child[p[0] := ReplaceAt(t.child[p[0]], p[1..], s)])
  }

  lemma {:induction false} PathSnoc<V>(t: Tree<V>, p: seq<nat>, i: nat)
    requires IsPath(t, p) && At(t, p).Node? && i < |At(t, p).child|
    ensures IsPath(t, p + [i]) && At(t, p + [i]) == At(t, p).child[i]
    decreases p
  {
    if p != [] {
      assert (p + [i])[1..] == p[1..] + [i];
      PathSnoc(t.child[p[0]], p[1..], i);
    }
  }

  lemma {:induction false} AtReplaceAt<V>(t: Tree<V>, p: seq<nat>, s: Tree<V>)
    requires IsPath(t, p)
    ensures IsPath(ReplaceAt(t, p, s), p) && At(ReplaceAt(t, p, s), p) == s
    decreases p
  {
    if p != [] {
      AtReplaceAt(t.child[p[0]], p[1..], s);
    }
  }

  lemma {:induction false} ReplaceSnoc<V>(t: Tree<V>, p: seq<nat>, i: nat, s: Tree<V>)
    requires IsPath(t, p) && At(t, p).Node? && i < |At(t, p).child|
    ensures IsPath(t, p + [i])
    ensures ReplaceAt(t, p + [i], s) == ReplaceAt(t, p, Node(At(t, p).byte, At(t, p).bit, At(t, p).child[i := s]))
    decreases p
  {
    PathSnoc(t, p, i);
    if p != [] {
      assert (p + [i])[1..] == p[1..] + [i];
      ReplaceSnoc(t.child[p[0]], p[1..], i, s);
    }
  }

  lemma {:induction false} ReplaceTwice<V>(t: Tree<V>, p: seq<nat>, x: Tree<V>, y: Tree<V>)
    requires IsPath(t, p)
    ensures IsPath(ReplaceAt(t, p, x), p)
    ensures ReplaceAt(ReplaceAt(t, p, x), p, y) == ReplaceAt(t, p, y)
    decreases p
  {
    AtReplaceAt(t, p, x);
    if p != [] {
      ReplaceTwice(t.child[p[0]], p[1..], x, y);
    }
  }

  lemma {:induction false} AtPrefix<V>(t: Tree<V>, p1: seq<nat>, p2: seq<nat>)
    requires IsPath(t, p1) && p2 <= p1
    ensures IsPath(t, p2) && IsPath(At(t, p2), p1[|p2|..])
    ensures At(t, p1) == At(At(t, p2), p1[|p2|..])
    decreases p2
  {
    if p2 != [] {
      assert p1[1..][|p2| - 1..] == p1[|p2|..];
      AtPrefix(t.child[p1[0]], p1[1..], p2[1..]);
    }
  }

  /** The subtree at a path is well formed, and its entries are entries of the whole tree. */
  lemma {:induction false} AtSub<V>(t: Tree<V>, p: seq<nat>)
    requires WellFormed(t) && IsPath(t, p)
    ensures WellFormed(At(t, p))
    ensures forall k :: k in Mapping(At(t, p)) ==> k in Mapping(t) && Mapping(t)[k] == Mapping(At(t, p))[k]
    decreases p
  {
    if p != [] {
      ChildSub(t, p[0]);
      AtSub(t.child[p[0]], p[1..]);
    }
  }

  /** Path p is the one a lookup of `key` takes: each step is the key's nibble at that node. */
  ghost predicate Follows<V>(t: Tree<V>, p: seq<nat>, key: Key)
    decreases p
  {
    p == [] ||
    (&& t.Node?
     && NodePos(t) < 2 * |key|
     && p[0] == Nib(key, NodePos(t))
     && p[0] < |t.child|
     && Follows(t.child[p[0]], p[1..], key))
  }

  /**
   * As Follows, and moreover `key` agrees with every key stored under each node of the
   * path on all nibbles before that node's discriminator: `key` may be stored below the path.
   */
  ghost predicate FollowsAgree<V>(t: Tree<V>, p: seq<nat>, key: Key)
    decreases p
  {
    p == [] ||
    (&& t.Node?
     && NodePos(t) < 2 * |key|
     && p[0] == Nib(key, NodePos(t))
     && p[0] < |t.child|
     && (forall k :: k in Mapping(t) ==> Agree(k, key, NodePos(t)))
     && FollowsAgree(t.child[p[0]], p[1..], key))
  }

  lemma {:induction false} FollowsIsPath<V>(t: Tree<V>, p: seq<nat>, key: Key)
    requires Follows(t, p, key) || FollowsAgree(t, p, key)
    ensures IsPath(t, p)
    decreases p
  {
    if p != [] {
      FollowsIsPath(t.child[p[0]], p[1..], key);
    }
  }

  lemma {:induction false} FollowsSnoc<V>(t: Tree<V>, p: seq<nat>, key: Key)
    requires IsPath(t, p) && Follows(t, p, key)
    requires At(t, p).Node? && NodePos(At(t, p)) < 2 * |key| && Nib(key, NodePos(At(t, p))) < |At(t, p).child|
    ensures Follows(t, p + [Nib(key, NodePos(At(t, p)))], key)
    decreases p
  {
    var i := Nib(key, NodePos(At(t, p)));
    if p != [] {
      assert (p + [i])[1..] == p[1..] + [i];
      FollowsSnoc(t.child[p[0]], p[1..], key);
    }
  }

  lemma {:induction false} FollowsAgreeSnoc<V>(t: Tree<V>, p: seq<nat>, key: Key)
    requires IsPath(t, p) && FollowsAgree(t, p, key)
    requires At(t, p).Node? && NodePos(At(t, p)) < 2 * |key| && Nib(key, NodePos(At(t, p))) < |At(t, p).child|
    requires forall k :: k in Mapping(At(t, p)) ==> Agree(k, key, NodePos(At(t, p)))
    ensures FollowsAgree(t, p + [Nib(key, NodePos(At(t, p)))], key)
    decreases p
  {
    var i := Nib(key, NodePos(At(t, p)));
    if p != [] {
      assert (p + [i])[1..] == p[1..] + [i];
      FollowsAgreeSnoc(t.child[p[0]], p[1..], key);
    }
  }

  /** Along a lookup path, the step after a proper prefix is the key's nibble at the node reached. */
  lemma {:induction false} FollowsNext<V>(t: Tree<V>, p1: seq<nat>, p2: seq<nat>, key: Key)
    requires Follows(t, p1, key) && p2 < p1
    ensures IsPath(t, p2) && At(t, p2).Node?
    ensures NodePos(At(t, p2)) < 2 * |key| && p1[|p2|] == Nib(key, NodePos(At(t, p2)))
    decreases p2
  {
    FollowsIsPath(t, p1, key);
    if p2 != [] {
      assert p1[1..][|p2| - 1] == p1[|p2|];
      FollowsNext(t.child[p1[0]], p1[1..], p2[1..], key);
    }
  }

  /** A stored key is found in the subtree at the end of its own lookup path. */
  lemma {:induction false} KeyOnPath<V>(t: Tree<V>, p: seq<nat>, key: Key)
    requires WellFormed(t) && Follows(t, p, key) && key in Mapping(t)
    ensures IsPath(t, p)
    ensures key in Mapping(At(t, p)) && Mapping(At(t, p))[key] == Mapping(t)[key]
    decreases p
  {
    FollowsIsPath(t, p, key);
    if p != [] {
      NodeMember(t, key);
      ChildSub(t, p[0]);
      KeyOnPath(t.child[p[0]], p[1..], key);
    }
  }

  /**
   * Overwriting child slot i of a routed node with a subtree whose keys all route to slot i
   * keeps the node routed and swaps that child's entries for the new ones.
   */
  lemma ReplaceChild<V>(t: Tree<V>, i: nat, c: Tree<V>)
    requires t.Node? && Routed(t) && i < |t.child|
    requires forall k :: k in Mapping(c) ==> NodePos(t) < 2 * |k| && Nib(k, NodePos(t)) == i
    ensures Routed(Node(t.byte, t.bit, t.child[i := c]))
    ensures Mapping(Node(t.byte, t.bit, t.child[i := c])) == (Mapping(t) - Mapping(t.child[i]).Keys) + Mapping(c)
  {
    var t' := Node(t.byte, t.bit, t.child[i := c]);
    var m := (Mapping(t) - Mapping(t.child[i]).Keys) + Mapping(c);
    assert Routed(t');
    forall k
      ensures k in Mapping(t') <==> k in m
      ensures k in m ==> Mapping(t')[k] == m[k]
    {
      NodeMember(t, k);
      NodeMember(t', k);
    }
    assert Mapping(t').Keys == m.Keys;
  }

  lemma MapGrow<K, V>(m: map<K, V>, c: map<K, V>, key: K, v: V)
    requires forall k :: k in c ==> k in m && m[k] == c[k]
    ensures (m - c.Keys) + c[key := v] == m[key := v]
  {
    var l, r := (m - c.Keys) + c[key := v], m[key := v];
    assert l.Keys == r.Keys;
  }

  lemma MapShrink<K, V>(m: map<K, V>, c: map<K, V>, d: set<K>)
    requires forall k :: k in c ==> k in m && m[k] == c[k]
    requires d <= c.Keys
    ensures (m - c.Keys) + (c - d) == m - d
  {
    var l, r := (m - c.Keys) + (c - d), m - d;
    assert l.Keys == r.Keys;
  }

  /** A node rebuilt with a non-empty, well-formed child in slot i is well formed if it is routed and prefixed. */
  lemma AssembleNode<V>(t: Tree<V>, i: nat, c: Tree<V>)
    requires t.Node? && WellFormed(t) && i < |t.child|
    requires WellFormed(c) && !c.Empty?
    requires Routed(Node(t.byte, t.bit, t.child[i := c]))
    requires Prefixed(Node(t.byte, t.bit, t.child[i := c]))
    ensures WellFormed(Node(t.byte, t.bit, t.child[i := c]))
  {
    var t' := Node(t.byte, t.bit, t.child[i := c]);
    var i1, i2 :| 0 <= i1 < i2 < |t.child| && !t.child[i1].Empty? && !t.child[i2].Empty?;
    assert !t'.child[i1].Empty? && !t'.child[i2].Empty?;
    assert forall j :: 0 <= j < |t'.child| ==> WellFormed(t'.child[j]);
  }

  lemma PrefixedGrow<V>(t: Tree<V>, t': Tree<V>, key: Key, v: V)
    requires t.Node? && t'.Node? && NodePos(t') == NodePos(t) && Prefixed(t)
    requires Mapping(t') == Mapping(t)[key := v]
    requires NodePos(t) <= 2 * |key|
    requires forall k :: k in Mapping(t) ==> Agree(k, key, NodePos(t))
    ensures Prefixed(t')
  {
    forall k1, k2 | k1 in Mapping(t') && k2 in Mapping(t')
      ensures Agree(k1, k2, NodePos(t'))
    {
      if k1 != key && k2 != key {
        assert k1 in Mapping(t) && k2 in Mapping(t);
      }
    }
  }

  lemma PrefixedShrink<V>(t: Tree<V>, t': Tree<V>)
    requires t.Node? && t'.Node? && NodePos(t') == NodePos(t) && Prefixed(t)
    requires Mapping(t').Keys <= Mapping(t).Keys
    ensures Prefixed(t')
  {
  }

  /** One level of Grow: the node whose slot i receives the grown child. */
  lemma GrowStep<V>(t: Tree<V>, i: nat, c: Tree<V>, key: Key, v: V)
    requires t.Node? && WellFormed(t) && i < |t.child|
    requires WellFormed(c) && !c.Empty?
    requires key !in Mapping(t)
    requires NodePos(t) < 2 * |key| && Nib(key, NodePos(t)) == i
    requires forall k :: k in Mapping(t) ==> Agree(k, key, NodePos(t))
    requires Mapping(c) == Mapping(t.child[i])[key := v]
    ensures WellFormed(Node(t.byte, t.bit, t.child[i := c]))
    ensures Mapping(Node(t.byte, t.bit, t.child[i := c])) == Mapping(t)[key := v]
  {
    var t' := Node(t.byte, t.bit, t.child[i := c]);
    ChildSub(t, i);
    assert Routed(t);
    ReplaceChild(t, i, c);
    MapGrow(Mapping(t), Mapping(t.child[i]), key, v);
    PrefixedGrow(t, t', key, v);
    AssembleNode(t, i, c);
  }

  /**
   * Insertion along a path: putting at the end of key's path a well-formed subtree that
   * holds the old subtree's entries plus key yields a well-formed tree holding the old
   * entries plus key.
   */
  lemma {:induction false} Grow<V>(t: Tree<V>, p: seq<nat>, s: Tree<V>, key: Key, v: V)
    requires WellFormed(t) && IsPath(t, p) && FollowsAgree(t, p, key)
    requires WellFormed(s) && !s.Empty?
    requires key !in Mapping(t)
    requires Mapping(s) == Mapping(At(t, p))[key := v]
    ensures !ReplaceAt(t, p, s).Empty?
    ensures WellFormed(ReplaceAt(t, p, s))
    ensures Mapping(ReplaceAt(t, p, s)) == Mapping(t)[key := v]
    decreases p
  {
    if p != [] {
      var i := p[0];
      ChildSub(t, i);
      Grow(t.child[i], p[1..], s, key, v);
      GrowStep(t, i, ReplaceAt(t.child[i], p[1..], s), key, v);
    }
  }

  /**
   * Removal along a path: putting at the end of a path a well-formed, non-empty subtree
   * (empty only at the root) whose entries are some of the old subtree's yields a
   * well-formed tree that has lost exactly the entries the subtree lost.
   */
  lemma {:induction false} Shrink<V>(t: Tree<V>, p: seq<nat>, s: Tree<V>)
    requires WellFormed(t) && IsPath(t, p)
    requires WellFormed(s) && (!s.Empty? || p == [])
    requires forall k :: k in Mapping(s) ==> k in Mapping(At(t, p)) && Mapping(At(t, p))[k] == Mapping(s)[k]
    ensures p != [] ==> !ReplaceAt(t, p, s).Empty?
    ensures WellFormed(ReplaceAt(t, p, s))
    ensures Mapping(ReplaceAt(t, p, s)) == Mapping(t) - (Mapping(At(t, p)).Keys - Mapping(s).Keys)
    decreases p
  {
    if p == [] {
      var m := Mapping(t) - (Mapping(t).Keys - Mapping(s).Keys);
      assert m.Keys == Mapping(s).Keys;
      assert Mapping(s) == m;
    } else {
      var i := p[0];
      var c := t.child[i];
      ChildSub(t, i);
      Shrink(c, p[1..], s);
      var c' := ReplaceAt(c, p[1..], s);
      var t' := ReplaceAt(t, p, s);
      assert t' == Node(t.byte, t.bit, t.child[i := c']);
      assert !c'.Empty? by {
        if p[1..] == [] { assert c' == s; }
      }
      var d := Mapping(At(t, p)).Keys - Mapping(s).Keys;
      assert At(t, p) == At(c, p[1..]);
      AtSub(c, p[1..]);
      ShrinkStep(t, i, c', d);
    }
  }

  /** One level of Shrink: the node whose slot i receives the shrunk child. */
  lemma ShrinkStep<V>(t: Tree<V>, i: nat, c: Tree<V>, d: set<Key>)
    requires t.Node? && WellFormed(t) && i < |t.child|
    requires WellFormed(c) && !c.Empty?
    requires d <= Mapping(t.child[i]).Keys && Mapping(c) == Mapping(t.child[i]) - d
    ensures WellFormed(Node(t.byte, t.bit, t.child[i := c]))
    ensures Mapping(Node(t.byte, t.bit, t.child[i := c])) == Mapping(t) - d
  {
    var t' := Node(t.byte, t.bit, t.child[i := c]);
    ChildSub(t, i);
    assert Routed(t);
    ReplaceChild(t, i, c);
    MapShrink(Mapping(t), Mapping(t.child[i]), d);
    PrefixedShrink(t, t');
    AssembleNode(t, i, c);
  }

  /** A non-empty well-formed tree stores at least one key (the one any_leaf finds). */
  lemma SomeKey<V>(t: Tree<V>) returns (k: Key)
    requires WellFormed(t) && !t.Empty?
    ensures k in Mapping(t)
  {
    if t.Leaf? {
      k := t.key;
    } else {
      k := AnyLeaf(t).key;
    }
  }

  /** Stored keys are pairwise non-prefix: no stored key is a byte-wise prefix of another. */
  lemma {:induction false} NoPrefixPairs<V>(t: Tree<V>, k1: Key, k2: Key)
    requires WellFormed(t) && k1 in Mapping(t) && k2 in Mapping(t) && k1 != k2
    ensures !Compatible(k1, k2) && !Compatible(k2, k1)
    decreases t
  {
    match t
    case Leaf(_, _) =>
    case Node(_, _, cs) =>
      NodeMember(t, k1);
      NodeMember(t, k2);
      var q := NodePos(t);
      var i1, i2 := Nib(k1, q), Nib(k2, q);
      if i1 == i2 {
        ChildSub(t, i1);
        NoPrefixPairs(cs[i1], k1, k2);
      } else {
        var c := if |k1| < |k2| then |k1| else |k2|;
        assert q / 2 < c;
        assert k1[q / 2] != k2[q / 2];
        assert k1[..c][q / 2] != k2[..c][q / 2];
      }
  }

  /**
   * Discriminators strictly increase along every root-to-leaf path: a child node's
   * nibble position lies after its parent's.
   */
  lemma DiscriminatorsIncrease<V>(t: Tree<V>, i: nat)
    requires WellFormed(t) && t.Node? && i < |t.child| && t.child[i].Node?
    ensures NodePos(t.child[i]) > NodePos(t)
  {
    var c := t.child[i];
    ChildSub(t, i);
    var j1, j2 :| 0 <= j1 < j2 < |c.child| && !c.child[j1].Empty? && !c.child[j2].Empty?;
    var k1 := KeyUnder(c, j1);
    var k2 := KeyUnder(c, j2);
    assert Agree(k1, k2, NodePos(t));
    LaterSplit(k1, k2, NodePos(t), NodePos(c));
  }

  /** A key stored under child j of a well-formed node, which therefore has nibble j there. */
  lemma KeyUnder<V>(c: Tree<V>, j: nat) returns (k: Key)
    requires WellFormed(c) && c.Node? && j < |c.child| && !c.child[j].Empty?
    ensures k in Mapping(c) && NodePos(c) < 2 * |k| && Nib(k, NodePos(c)) == j
  {
    ChildSub(c, j);
    k := SomeKey(c.child[j]);
  }

  /**
   * Two keys that agree before position p and at p itself can only first differ after p.
   */
  lemma LaterSplit(k1: Key, k2: Key, p: nat, q: nat)
    requires Agree(k1, k2, p) && p < 2 * |k1| && p < 2 * |k2| && Nib(k1, p) == Nib(k2, p)
    requires q < 2 * |k1| && q < 2 * |k2| && Nib(k1, q) != Nib(k2, q)
    ensures q > p
  {
  }
}
