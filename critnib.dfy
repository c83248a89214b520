/**
 * The crit-nib index of src/critnib.c: critnib_new, critnib_get, critnib_set and
 * critnib_remove on an object holding the root slot. Each operation is one sequential
 * critical section. The descents are the C `while` loops; the child-index path a loop
 * records stands for the `parent`/`pp` pointers, and a write through such a pointer is
 * ReplaceAt on that path.
 */
module Critnib {
  import opened Wrappers
  import opened CritnibBits
  import opened CritnibTree

  /** Result of critnib_set: 0, or EEXIST for a key that equals or is a prefix of a stored key (or vice versa). */
  datatype SetStatus = Success | AlreadyExists

  /**
   * Where two keys first differ: bytes agree before `diff`, and `sh` is the shift of the
   * most significant differing bit rounded down to a slice. The keys agree on every nibble
   * before Pos(diff, sh) and select different slots there.
   */
  lemma DivergencePoint(k1: Key, k2: Key, diff: nat)
    requires diff < |k1| && diff < |k2| && k1[..diff] == k2[..diff] && k1[diff] != k2[diff]
    ensures var sh := (Mssb(Xor(k1[diff], k2[diff])) / SLICE) * SLICE;
      && (sh == 0 || sh == 4)
      && Pos(diff, sh) < 2 * |k1| && Pos(diff, sh) < 2 * |k2|
      && Agree(k1, k2, Pos(diff, sh))
      && Nib(k1, Pos(diff, sh)) == SliceIndex(k1[diff], sh)
      && Nib(k2, Pos(diff, sh)) == SliceIndex(k2[diff], sh)
      && SliceIndex(k1[diff], sh) != SliceIndex(k2[diff], sh)
  {
    SpliceShift(k1[diff], k2[diff]);
    var sh := (Mssb(Xor(k1[diff], k2[diff])) / SLICE) * SLICE;
    AgreeFromBytes(k1, k2, diff);
    SliceIndexNibbles(k1[diff]);
    SliceIndexNibbles(k2[diff]);
    if sh == 0 {
      assert Nib(k1, 2 * diff) == k1[diff] / 16;
      assert Nib(k2, 2 * diff) == k2[diff] / 16;
    }
    SliceIndexIsNib(k1, diff, sh);
    SliceIndexIsNib(k2, diff, sh);
  }

  /** The node critnib_set splices in: the old subtree and the new leaf in two slots of a fresh node. */
  function SpliceNode<V>(n: Tree<V>, a: nat, leaf: Tree<V>, b: nat, diff: nat, sh: nat): Tree<V>
    requires a < SLNODES && b < SLNODES
  {
    var empty: seq<Tree<V>> := seq(SLNODES, _ => Empty);
    Node(diff, sh, empty[a := n][b := leaf])
  }

  /** Every key under n agrees with the comparison key up to and including the divergence nibble. */
  lemma SubtreeAgrees<V>(n: Tree<V>, nkKey: Key, dpos: nat)
    requires WellFormed(n) && !n.Empty? && nkKey in Mapping(n) && dpos < 2 * |nkKey|
    requires n.Node? ==> NodePos(n) > dpos
    ensures forall k :: k in Mapping(n) ==> Agree(k, nkKey, dpos + 1)
  {
    forall k | k in Mapping(n)
      ensures Agree(k, nkKey, dpos + 1)
    {
      if n.Node? {
        assert Prefixed(n);
        AgreeShorter(k, nkKey, NodePos(n), dpos + 1);
      }
    }
  }

  lemma SpliceCore<V>(n: Tree<V>, nkKey: Key, key: Key, v: V, diff: nat, sh: nat, a: nat, b: nat)
    requires WellFormed(n) && !n.Empty? && nkKey in Mapping(n) && key !in Mapping(n)
    requires (sh == 0 || sh == 4) && a < SLNODES && b < SLNODES && a != b
    requires Pos(diff, sh) < 2 * |key| && Pos(diff, sh) < 2 * |nkKey|
    requires Agree(nkKey, key, Pos(diff, sh))
    requires Nib(nkKey, Pos(diff, sh)) == a && Nib(key, Pos(diff, sh)) == b
    requires n.Node? ==> NodePos(n) > Pos(diff, sh)
    ensures WellFormed(SpliceNode(n, a, Leaf(key, v), b, diff, sh))
    ensures Mapping(SpliceNode(n, a, Leaf(key, v), b, diff, sh)) == Mapping(n)[key := v]
  {
    var dpos := Pos(diff, sh);
    var m := SpliceNode(n, a, Leaf(key, v), b, diff, sh);
    SubtreeAgrees(n, nkKey, dpos);
    assert Routed(m) by {
      forall i, k | 0 <= i < |m.child| && k in Mapping(m.child[i])
        ensures dpos < 2 * |k| && Nib(k, dpos) == i
      {
        if i != b {
          assert i == a && k in Mapping(n);
          assert Agree(k, nkKey, dpos + 1);
        }
      }
    }
    SpliceMapping(m, n, key, v, a, b);
    forall k1, k2 | k1 in Mapping(m) && k2 in Mapping(m)
      ensures Agree(k1, k2, dpos)
    {
      assert Agree(k1, nkKey, dpos) by {
        if k1 != key { AgreeShorter(k1, nkKey, dpos + 1, dpos); }
      }
      assert Agree(k2, nkKey, dpos) by {
        if k2 != key { AgreeShorter(k2, nkKey, dpos + 1, dpos); }
      }
    }
    assert Prefixed(m);
    if a < b {
      assert !m.child[a].Empty? && !m.child[b].Empty?;
    } else {
      assert !m.child[b].Empty? && !m.child[a].Empty?;
    }
    assert Branching(m.child);
    assert forall j :: 0 <= j < |m.child| ==> WellFormed(m.child[j]);
  }

  lemma SpliceMapping<V>(m: Tree<V>, n: Tree<V>, key: Key, v: V, a: nat, b: nat)
    requires m.Node? && Routed(m) && a < |m.child| && b < |m.child| && a != b
    requires m.child[a] == n && m.child[b] == Leaf(key, v) && key !in Mapping(n)
    requires forall j :: 0 <= j < |m.child| && j != a && j != b ==> m.child[j].Empty?
    ensures Mapping(m) == Mapping(n)[key := v]
  {
    forall k
      ensures k in Mapping(m) <==> k in Mapping(n)[key := v]
      ensures k in Mapping(m) ==> Mapping(m)[k] == Mapping(n)[key := v][k]
    {
      NodeMember(m, k);
    }
    assert Mapping(m).Keys == Mapping(n)[key := v].Keys;
  }

  /**
   * The splice of critnib_set is sound: when the subtree n holds the comparison key and
   * its discriminator (if any) lies after the divergence point, the new node at
   * (diff, sh) holding n and the new leaf is well formed and holds n's entries plus the key.
   */
  lemma Splice<V>(n: Tree<V>, nkKey: Key, key: Key, v: V, diff: nat)
    requires WellFormed(n) && !n.Empty? && nkKey in Mapping(n) && key !in Mapping(n)
    requires diff < |nkKey| && diff < |key| && nkKey[..diff] == key[..diff] && nkKey[diff] != key[diff]
    requires n.Node? ==> NodePos(n) > Pos(diff, (Mssb(Xor(nkKey[diff], key[diff])) / SLICE) * SLICE)
    ensures var sh := (Mssb(Xor(nkKey[diff], key[diff])) / SLICE) * SLICE;
      var a, b := SliceIndex(nkKey[diff], sh), SliceIndex(key[diff], sh);
      && sh % SLICE == 0
      && a != b
      && WellFormed(SpliceNode(n, a, Leaf(key, v), b, diff, sh))
      && Mapping(SpliceNode(n, a, Leaf(key, v), b, diff, sh)) == Mapping(n)[key := v]
  {
    var sh := (Mssb(Xor(nkKey[diff], key[diff])) / SLICE) * SLICE;
    DivergencePoint(nkKey, key, diff);
    var a, b := SliceIndex(nkKey[diff], sh), SliceIndex(key[diff], sh);
    SpliceCore(n, nkKey, key, v, diff, sh, a, b);
  }

  /**
   * One step of critnib_set's second descent at a node whose discriminator is not after
   * the divergence point: the step keeps to the key's path, the key still agrees with
   * everything below, and the walk stays on the first descent's path unless it reaches
   * the empty slot where the first descent stopped.
   */
  lemma SecondDescentStep<V>(root: Tree<V>, p1: seq<nat>, parent: seq<nat>, nkKey: Key, key: Key, dpos: nat)
    requires WellFormed(root) && Follows(root, p1, key) && IsPath(root, p1)
    requires IsPath(root, parent) && FollowsAgree(root, parent, key) && parent <= p1
    requires nkKey in Mapping(At(root, p1))
    requires Agree(nkKey, key, dpos) && dpos < 2 * |key|
    requires At(root, parent).Node? && NodePos(At(root, parent)) <= dpos
    requires At(root, p1).Node? && NodePos(At(root, p1)) < 2 * |key| ==>
      Nib(key, NodePos(At(root, p1))) < |At(root, p1).child| && At(root, p1).child[Nib(key, NodePos(At(root, p1)))].Empty?
    ensures var n := At(root, parent);
      var idx := Nib(key, NodePos(n));
      && idx < |n.child|
      && IsPath(root, parent + [idx]) && At(root, parent + [idx]) == n.child[idx]
      && FollowsAgree(root, parent + [idx], key)
      && (!n.child[idx].Empty? ==> parent + [idx] <= p1)
  {
    var n := At(root, parent);
    AtSub(root, parent);
    var idx := Nib(key, NodePos(n));
    KeyAgreesBelow(root, p1, parent, nkKey, key, dpos);
    FollowsAgreeSnoc(root, parent, key);
    PathSnoc(root, parent, idx);
    if !n.child[idx].Empty? {
      StaysOnFirstPath(root, p1, parent, key);
    }
  }

  lemma KeyAgreesBelow<V>(root: Tree<V>, p1: seq<nat>, parent: seq<nat>, nkKey: Key, key: Key, dpos: nat)
    requires WellFormed(root) && IsPath(root, p1) && IsPath(root, parent) && parent <= p1
    requires nkKey in Mapping(At(root, p1))
    requires Agree(nkKey, key, dpos)
    requires At(root, parent).Node? && NodePos(At(root, parent)) <= dpos
    ensures forall k :: k in Mapping(At(root, parent)) ==> Agree(k, key, NodePos(At(root, parent)))
  {
    var n := At(root, parent);
    AtSub(root, parent);
    AtPrefix(root, p1, parent);
    AtSub(n, p1[|parent|..]);
    assert nkKey in Mapping(n);
    AgreeShorter(nkKey, key, dpos, NodePos(n));
    forall k | k in Mapping(n)
      ensures Agree(k, key, NodePos(n))
    {
      assert Prefixed(n);
      AgreeTrans(k, nkKey, key, NodePos(n));
    }
  }

  lemma StaysOnFirstPath<V>(root: Tree<V>, p1: seq<nat>, parent: seq<nat>, key: Key)
    requires Follows(root, p1, key) && IsPath(root, p1) && IsPath(root, parent) && parent <= p1
    requires At(root, parent).Node? && NodePos(At(root, parent)) < 2 * |key|
    requires Nib(key, NodePos(At(root, parent))) < |At(root, parent).child|
    requires !At(root, parent).child[Nib(key, NodePos(At(root, parent)))].Empty?
    requires At(root, p1).Node? && NodePos(At(root, p1)) < 2 * |key| ==>
      Nib(key, NodePos(At(root, p1))) < |At(root, p1).child| && At(root, p1).child[Nib(key, NodePos(At(root, p1)))].Empty?
    ensures parent + [Nib(key, NodePos(At(root, parent)))] <= p1
  {
    var idx := Nib(key, NodePos(At(root, parent)));
    if parent == p1 {
      assert false;
    }
    FollowsNext(root, p1, parent, key);
    assert parent + [idx] == p1[..|parent| + 1];
  }

  /**
   * critnib_remove without a collapse: the slot of the removed leaf is cleared and its
   * parent still has two children, so the parent stays well formed and loses just that key.
   */
  lemma ClearLeafSlot<V>(p: Tree<V>, i: nat, j1: nat, j2: nat, key: Key, v: V)
    requires p.Node? && WellFormed(p) && i < |p.child| && p.child[i] == Leaf(key, v)
    requires j1 < |p.child| && j2 < |p.child| && j1 != j2
    requires !p.child[i := Empty][j1].Empty? && !p.child[i := Empty][j2].Empty?
    ensures WellFormed(Node(p.byte, p.bit, p.child[i := Empty]))
    ensures Mapping(Node(p.byte, p.bit, p.child[i := Empty])) == Mapping(p) - {key}
  {
    var p' := Node(p.byte, p.bit, p.child[i := Empty]);
    ReplaceChild(p, i, Empty);
    assert Mapping(p.child[i]).Keys == {key};
    PrefixedShrink(p, p');
    if j1 < j2 {
      assert Branching(p'.child) by { assert !p'.child[j1].Empty? && !p'.child[j2].Empty?; }
    } else {
      assert Branching(p'.child) by { assert !p'.child[j2].Empty? && !p'.child[j1].Empty?; }
    }
    assert forall j :: 0 <= j < |p'.child| ==> WellFormed(p'.child[j]);
  }

  /**
   * critnib_remove with a collapse: once the removed leaf's slot is cleared, the only child
   * left is a well-formed subtree holding every other key of the parent, and it can take
   * the parent's place.
   */
  lemma CollapseParent<V>(p: Tree<V>, i: nat, j: nat, key: Key, v: V)
    requires p.Node? && WellFormed(p) && i < |p.child| && p.child[i] == Leaf(key, v) && j < |p.child|
    requires forall jj :: 0 <= jj < |p.child| && jj != j && jj != i ==> p.child[jj].Empty?
    ensures j != i && !p.child[j].Empty? && WellFormed(p.child[j])
    ensures Mapping(p.child[j]) == Mapping(p) - {key}
  {
    var i1, i2 :| 0 <= i1 < i2 < |p.child| && !p.child[i1].Empty? && !p.child[i2].Empty?;
    assert i1 == j || i2 == j;
    var p' := Node(p.byte, p.bit, p.child[i := Empty]);
    ReplaceChild(p, i, Empty);
    assert Mapping(p.child[i]).Keys == {key};
    ChildSub(p, j);
    OnlyChildMapping(p', j);
  }

  /** A routed node whose slots other than j are all empty holds exactly child j's entries. */
  lemma OnlyChildMapping<V>(p: Tree<V>, j: nat)
    requires p.Node? && Routed(p) && j < |p.child|
    requires forall jj :: 0 <= jj < |p.child| && jj != j ==> p.child[jj].Empty?
    ensures Mapping(p) == Mapping(p.child[j])
  {
    forall k
      ensures k in Mapping(p) <==> k in Mapping(p.child[j])
      ensures k in Mapping(p) ==> Mapping(p)[k] == Mapping(p.child[j])[k]
    {
      NodeMember(p, k);
    }
    assert Mapping(p).Keys == Mapping(p.child[j]).Keys;
  }

  /**
   * The first descent of critnib_set: follow the key's nibbles while the node's byte is
   * within the key, and take any leaf of the subtree where the walk stops. A stored key
   * equal to the new one is necessarily the leaf found.
   */
  method FindLeaf<V>(root: Tree<V>, key: Key) returns (nk: Tree<V>, ghost p1: seq<nat>)
    requires WellFormed(root) && !root.Empty?
    ensures IsPath(root, p1) && Follows(root, p1, key) && !At(root, p1).Empty?
    ensures At(root, p1).Node? && NodePos(At(root, p1)) < 2 * |key| ==>
      Nib(key, NodePos(At(root, p1))) < |At(root, p1).child| && At(root, p1).child[Nib(key, NodePos(At(root, p1)))].Empty?
    ensures nk.Leaf? && nk.key in Mapping(At(root, p1)) && nk.key in Mapping(root)
    ensures key in Mapping(root) ==> nk.key == key
  {
    var n := root;
    p1 := [];
    while n.Node? && n.byte < |key|
      invariant IsPath(root, p1) && Follows(root, p1, key) && n == At(root, p1)
      invariant WellFormed(n) && !n.Empty?
      invariant key in Mapping(root) ==> key in Mapping(n)
      decreases n
    {
      var idx := SliceIndex(key[n.byte], n.bit);
      SliceIndexIsNib(key, n.byte, n.bit);
      NodeMember(n, key);
      if n.child[idx].Empty? {
        nk := AnyLeaf(n);
        AtSub(root, p1);
        return;
      }
      FollowsSnoc(root, p1, key);
      PathSnoc(root, p1, idx);
      ChildSub(n, idx);
      p1 := p1 + [idx];
      n := n.child[idx];
    }
    if n.Node? {
      NodeMember(n, key);
      nk := AnyLeaf(n);
    } else {
      nk := n;
    }
    AtSub(root, p1);
  }

  /**
   * The second descent of critnib_set: from the root, follow the key while the node's
   * discriminator lies before the divergence point (diff, sh) of the key and the leaf the
   * first descent found; the result is the slot where the new key or the spliced node goes.
   */
  method FindSlot<V>(root: Tree<V>, ghost p1: seq<nat>, nkKey: Key, key: Key, diff: nat, sh: nat) returns (parent: seq<nat>)
    requires WellFormed(root) && IsPath(root, p1) && Follows(root, p1, key)
    requires At(root, p1).Node? && NodePos(At(root, p1)) < 2 * |key| ==>
      Nib(key, NodePos(At(root, p1))) < |At(root, p1).child| && At(root, p1).child[Nib(key, NodePos(At(root, p1)))].Empty?
    requires nkKey in Mapping(At(root, p1))
    requires sh == 0 || sh == 4
    requires Agree(nkKey, key, Pos(diff, sh)) && Pos(diff, sh) < 2 * |key|
    ensures IsPath(root, parent) && FollowsAgree(root, parent, key)
    ensures !At(root, parent).Empty? ==> parent <= p1
    ensures At(root, parent).Node? ==> NodePos(At(root, parent)) > Pos(diff, sh)
  {
    parent := [];
    var n := root;
    while n.Node? && (n.byte < diff || (n.byte == diff && n.bit >= sh))
      invariant IsPath(root, parent) && n == At(root, parent) && FollowsAgree(root, parent, key)
      invariant !n.Empty? ==> parent <= p1
      decreases n
    {
      AtSub(root, parent);
      DescendConditionIsPosOrder(n.byte, n.bit, diff, sh);
      SliceIndexIsNib(key, n.byte, n.bit);
      SecondDescentStep(root, p1, parent, nkKey, key, Pos(diff, sh));
      var idx := SliceIndex(key[n.byte], n.bit);
      parent := parent + [idx];
      n := n.child[idx];
    }
    if n.Node? {
      AtSub(root, parent);
      DescendConditionIsPosOrder(n.byte, n.bit, diff, sh);
    }
  }

  /**
   * The descent of critnib_remove: the slot the key's leaf would occupy and, when that
   * slot is inside a node, the path of that node (the C `pp`) and the slot's index in it.
   * The walk stops early at a node whose byte is beyond the key.
   */
  method FindRemoval<V>(root: Tree<V>, key: Key) returns (parent: seq<nat>, pp: Option<seq<nat>>, ghost last: nat)
    requires WellFormed(root)
    ensures IsPath(root, parent)
    ensures key in Mapping(root) <==> At(root, parent).Leaf? && At(root, parent).key == key
    ensures key in Mapping(root) ==> Mapping(root)[key] == At(root, parent).value
    ensures pp.None? <==> parent == []
    ensures pp.Some? ==> parent == pp.value + [last] && IsPath(root, pp.value)
    ensures pp.Some? ==> At(root, pp.value).Node? && last < |At(root, pp.value).child|
    ensures pp.Some? ==> At(root, pp.value).child[last] == At(root, parent)
  {
    pp := None;
    last := 0;
    var n := root;
    parent := [];
    while n.Node?
      invariant IsPath(root, parent) && n == At(root, parent) && Follows(root, parent, key)
      invariant pp.None? <==> parent == []
      invariant pp.Some? ==> parent == pp.value + [last] && IsPath(root, pp.value)
      invariant pp.Some? ==> At(root, pp.value).Node? && last < |At(root, pp.value).child|
      invariant pp.Some? ==> At(root, pp.value).child[last] == n
      invariant WellFormed(n)
      invariant key in Mapping(root) ==> key in Mapping(n) && Mapping(n)[key] == Mapping(root)[key]
      decreases n
    {
      NodeMember(n, key);
      if n.byte >= |key| {
        return;
      }
      pp := Some(parent);
      var idx := SliceIndex(key[n.byte], n.bit);
      SliceIndexIsNib(key, n.byte, n.bit);
      FollowsSnoc(root, parent, key);
      PathSnoc(root, parent, idx);
      ChildSub(n, idx);
      last := idx;
      parent := parent + [idx];
      n := n.child[idx];
    }
    AtSub(root, parent);
  }

  /** The divergence loop of critnib_set: the length of the longest common byte prefix. */
  method FindDiff(a: Key, b: Key) returns (diff: nat)
    ensures diff <= |a| && diff <= |b| && a[..diff] == b[..diff]
    ensures diff < |a| && diff < |b| ==> a[diff] != b[diff]
  {
    var commonLen := if |a| < |b| then |a| else |b|;
    diff := 0;
    while diff < commonLen && a[diff] == b[diff]
      invariant diff <= commonLen && a[..diff] == b[..diff]
    {
      diff := diff + 1;
    }
  }

  /** struct critnib: the root slot of the index. */
  class Index<V> {
    var root: Tree<V>

    ghost predicate Valid()
      reads this
    {
      WellFormed(root)
    }

    /** The map from keys to values the index denotes. */
    ghost function Contents(): map<Key, V>
      reads this
    {
      Mapping(root)
    }

    /** critnib_new: an empty index. */
    constructor ()
      ensures Valid() && root.Empty? && Contents() == map[]
    {
      root := Empty;
    }

    /**
     * critnib_get: descend by the key's nibbles, giving up at a node whose byte is beyond
     * the key, then compare the whole key with the leaf's.
     */
    method Get(key: Key) returns (r: Option<V>)
      requires Valid()
      ensures r == if key in Contents() then Some(Contents()[key]) else None
    {
      var n := root;
      while n.Node?
        invariant WellFormed(n)
        invariant forall k :: k in Mapping(n) ==> k in Mapping(root) && Mapping(root)[k] == Mapping(n)[k]
        invariant key in Mapping(root) ==> key in Mapping(n)
        decreases n
      {
        NodeMember(n, key);
        if n.byte >= |key| {
          return None;
        }
        var idx := SliceIndex(key[n.byte], n.bit);
        SliceIndexIsNib(key, n.byte, n.bit);
        ChildSub(n, idx);
        n := n.child[idx];
      }
      if n.Empty? {
        return None;
      }
      if |key| != |n.key| || key != n.key {
        return None;
      }
      return Some(n.value);
    }

    /**
     * critnib_set: insert a key that is not stored yet. A key that equals, extends or is
     * extended by a stored key is refused with AlreadyExists and the index is untouched.
     */
    method Set(key: Key, value: V) returns (st: SetStatus)
      requires Valid()
      modifies this
      ensures Valid()
      ensures st == AlreadyExists <==> exists k :: k in old(Contents()) && Compatible(k, key)
      ensures st == AlreadyExists ==> root == old(root)
      ensures st == Success ==> Contents() == old(Contents())[key := value]
      ensures old(root).Empty? ==> st == Success && root == Leaf(key, value)
    {
      var k := Leaf(key, value);
      if root.Empty? {
        root := k;
        return Success;
      }
      ghost var p1;
      var nk;
      nk, p1 := FindLeaf(root, key);

      // diff: the first byte at which the leaf's key and the new key differ.
      var diff := FindDiff(nk.key, key);
      if diff >= |nk.key| || diff >= |key| {
        assert Compatible(nk.key, key);
        return AlreadyExists;
      }

      // sh: the shift of the nibble of byte diff in which they differ.
      var at := Xor(nk.key[diff], key[diff]);
      var sh := (Mssb(at) / SLICE) * SLICE;
      DivergencePoint(nk.key, key, diff);

      var parent := FindSlot(root, p1, nk.key, key, diff, sh);
      var n := At(root, parent);
      if n.Empty? {
        // The divergence nibble belongs to an existing node whose slot is free.
        Grow(root, parent, k, key, value);
        NewKeyIsNotPrefix(ReplaceAt(root, parent, k), Contents(), key);
        root := ReplaceAt(root, parent, k);
        return Success;
      }

      // Splice a new node into the edge leading to n.
      AtSub(root, parent);
      AtPrefix(root, p1, parent);
      AtSub(n, p1[|parent|..]);
      Splice(n, nk.key, key, value, diff);
      var m := SpliceNode(n, SliceIndex(nk.key[diff], sh), k, SliceIndex(key[diff], sh), diff, sh);
      Grow(root, parent, m, key, value);
      NewKeyIsNotPrefix(ReplaceAt(root, parent, m), Contents(), key);
      root := ReplaceAt(root, parent, m);
      return Success;
    }

    /**
     * critnib_remove: look the key up as critnib_get does, clear its leaf's slot, and if
     * the leaf's parent is left with a single child, put that child in the parent's place.
     */
    method Remove(key: Key) returns (r: Option<V>)
      requires Valid()
      modifies this
      ensures Valid()
      ensures r == if key in old(Contents()) then Some(old(Contents())[key]) else None
      ensures Contents() == old(Contents()) - {key}
      ensures key !in old(Contents()) ==> root == old(root)
    {
      var t := root;
      var parent, pp, last := FindRemoval(t, key);
      var n := At(t, parent);
      if !n.Leaf? || |key| != |n.key| || key != n.key {
        return None;
      }
      var value := n.value;
      root := ReplaceAt(t, parent, Empty);
      if pp.None? {
        assert Mapping(t) == map[key := value];
        return Some(value);
      }
      root := DetachLeaf(t, parent, pp.value, last, key, value);
      return Some(value);
    }
  }

  /**
   * The removal below a parent node: clear the leaf's slot at path parent, and if the parent
   * at path pp is then left with one child, put that child in the parent's place.
   */
  method DetachLeaf<V>(t: Tree<V>, parent: seq<nat>, pp: seq<nat>, ghost i: nat, ghost key: Key, ghost value: V)
      returns (t2: Tree<V>)
    requires WellFormed(t) && IsPath(t, pp) && At(t, pp).Node? && i < |At(t, pp).child|
    requires At(t, pp).child[i] == Leaf(key, value) && parent == pp + [i]
    ensures WellFormed(t2) && Mapping(t2) == Mapping(t) - {key}
  {
    UnlinkLeaf(t, pp, i, key, value);
    var t1 := ReplaceAt(t, parent, Empty);
    var n := At(t1, pp);

    // Scan the parent for a second occupied slot.
    var onlyChild: Tree<V> := Empty;
    ghost var jOnly: nat := 0;
    for j := 0 to SLNODES
      invariant jOnly < SLNODES
      invariant onlyChild.Empty? ==> forall jj :: 0 <= jj < j ==> n.child[jj].Empty?
      invariant !onlyChild.Empty? ==>
        jOnly < j && n.child[jOnly] == onlyChild && forall jj :: 0 <= jj < j && jj != jOnly ==> n.child[jj].Empty?
    {
      if !n.child[j].Empty? {
        if !onlyChild.Empty? {
          // Two occupied slots: the parent stays.
          KeepParent(t, pp, i, jOnly, j, key, value);
          return t1;
        }
        onlyChild := n.child[j];
        jOnly := j;
      }
    }

    // One occupied slot: that child replaces the parent.
    assert onlyChild.Empty? ==> n.child[0].Empty?;
    DropParent(t, pp, i, n, jOnly, onlyChild, key, value);
    t2 := ReplaceAt(t1, pp, onlyChild);
  }

  /** Clearing the leaf's slot, seen from the leaf's parent node at path pp. */
  lemma UnlinkLeaf<V>(t: Tree<V>, pp: seq<nat>, i: nat, key: Key, v: V)
    requires WellFormed(t) && IsPath(t, pp) && At(t, pp).Node? && i < |At(t, pp).child|
    requires At(t, pp).child[i] == Leaf(key, v)
    ensures |At(t, pp).child| == SLNODES && IsPath(t, pp + [i])
    ensures var p := At(t, pp);
      var t' := ReplaceAt(t, pp + [i], Empty);
      && t' == ReplaceAt(t, pp, Node(p.byte, p.bit, p.child[i := Empty]))
      && IsPath(t', pp) && At(t', pp) == Node(p.byte, p.bit, p.child[i := Empty])
  {
    var p := At(t, pp);
    AtSub(t, pp);
    ReplaceSnoc(t, pp, i, Empty);
    AtReplaceAt(t, pp, Node(p.byte, p.bit, p.child[i := Empty]));
  }

  /** critnib_remove when the leaf's parent keeps two children: the key alone is gone. */
  lemma KeepParent<V>(t: Tree<V>, pp: seq<nat>, i: nat, j1: nat, j2: nat, key: Key, v: V)
    requires WellFormed(t) && IsPath(t, pp) && At(t, pp).Node? && i < |At(t, pp).child|
    requires At(t, pp).child[i] == Leaf(key, v)
    requires j1 < |At(t, pp).child| && j2 < |At(t, pp).child| && j1 != j2
    requires !At(t, pp).child[i := Empty][j1].Empty? && !At(t, pp).child[i := Empty][j2].Empty?
    ensures var p := At(t, pp);
      var t' := ReplaceAt(t, pp, Node(p.byte, p.bit, p.child[i := Empty]));
      WellFormed(t') && Mapping(t') == Mapping(t) - {key}
  {
    var p := At(t, pp);
    AtSub(t, pp);
    ChildSub(p, i);
    ClearLeafSlot(p, i, j1, j2, key, v);
    var p' := Node(p.byte, p.bit, p.child[i := Empty]);
    assert Mapping(p).Keys - Mapping(p').Keys == {key};
    Shrink(t, pp, p');
  }

  /**
   * critnib_remove when the leaf's parent, n after its slot i is cleared, is left with the
   * single child c at slot j: that child takes the parent's place and the key alone is gone.
   */
  lemma DropParent<V>(t: Tree<V>, pp: seq<nat>, i: nat, n: Tree<V>, j: nat, c: Tree<V>, key: Key, v: V)
    requires WellFormed(t) && IsPath(t, pp) && At(t, pp).Node? && i < |At(t, pp).child|
    requires At(t, pp).child[i] == Leaf(key, v)
    requires n == Node(At(t, pp).byte, At(t, pp).bit, At(t, pp).child[i := Empty])
    requires j < |n.child| && c == n.child[j]
    requires forall jj :: 0 <= jj < |n.child| && jj != j ==> n.child[jj].Empty?
    ensures IsPath(ReplaceAt(t, pp, n), pp)
    ensures !c.Empty? && WellFormed(ReplaceAt(ReplaceAt(t, pp, n), pp, c))
    ensures Mapping(ReplaceAt(ReplaceAt(t, pp, n), pp, c)) == Mapping(t) - {key}
  {
    var p := At(t, pp);
    AtSub(t, pp);
    ChildSub(p, i);
    forall jj | 0 <= jj < |p.child| && jj != j && jj != i
      ensures p.child[jj].Empty?
    {
      assert n.child[jj] == p.child[jj];
    }
    CollapseParent(p, i, j, key, v);
    ReplaceTwice(t, pp, n, c);
    assert Mapping(p).Keys - Mapping(c).Keys == {key};
    Shrink(t, pp, c);
  }

  /** After a successful insertion no previously stored key is a prefix of the new key or vice versa. */
  lemma NewKeyIsNotPrefix<V>(t: Tree<V>, before: map<Key, V>, key: Key)
    requires WellFormed(t) && key in Mapping(t) && key !in before
    requires forall k :: k in before ==> k in Mapping(t)
    ensures forall k :: k in before ==> !Compatible(k, key)
  {
    forall k | k in before
      ensures !Compatible(k, key)
    {
      NoPrefixPairs(t, k, key);
    }
  }
}
