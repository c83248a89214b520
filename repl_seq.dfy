/**
 * The recency list of the LRU policy as a sequence, head first (the next victim) and
 * tail last (the most recently used), and the operations the policy applies to it.
 */
module ReplSeq {
  import opened Wrappers

  type EntryId = nat

  /** No entry appears twice: a TAILQ links each entry at most once. */
  predicate NoDup(l: seq<EntryId>) {
    forall i, j :: 0 <= i < j < |l| ==> l[i] != l[j]
  }

  /** The list with every entry of s taken out, the others in their order. */
  function Without(l: seq<EntryId>, s: set<EntryId>): seq<EntryId>
  {
    if l == [] then []
    else (if l[0] in s then [] else [l[0]]) + Without(l[1..], s)
  }

  /** Without keeps exactly the entries outside s. */
  lemma {:induction false} WithoutMembers(l: seq<EntryId>, s: set<EntryId>)
    ensures forall x :: x in Without(l, s) <==> x in l && x !in s
    decreases |l|
  {
    if l != [] {
      WithoutMembers(l[1..], s);
      assert l == [l[0]] + l[1..];
    }
  }

  /** TAILQ_MOVE_TO_TAIL: take e out of the list and link it again at the tail. */
  function MoveToTail(l: seq<EntryId>, e: EntryId): seq<EntryId> {
    Without(l, {e}) + [e]
  }

  /** The entries a sequence of buffer slots marks, in slot order. */
  function Marked(marks: seq<Option<EntryId>>): (r: seq<EntryId>)
    ensures forall x :: x in r <==> Some(x) in marks
  {
    if marks == [] then []
    else Marked(marks[..|marks| - 1]) + (if marks[|marks| - 1].Some? then [marks[|marks| - 1].value] else [])
  }

  /** The same entries as a set: those in a non-NULL slot. */
  function MarkedSet(marks: seq<Option<EntryId>>): (r: set<EntryId>)
    ensures forall x :: x in r <==> Some(x) in marks
  {
    if marks == [] then {}
    else MarkedSet(marks[..|marks| - 1]) + (if marks[|marks| - 1].Some? then {marks[|marks| - 1].value} else {})
  }

  /**
   * The work of clear_used_array on the list: each marked slot, in index order, moves
   * its entry to the tail.
   */
  function Promote(l: seq<EntryId>, marks: seq<Option<EntryId>>): seq<EntryId>
  {
    if marks == [] then l
    else
      var l' := Promote(l, marks[..|marks| - 1]);
      if marks[|marks| - 1].Some? then MoveToTail(l', marks[|marks| - 1].value) else l'
  }

  /** No entry is marked in two slots: what the was_used flag guarantees. */
  predicate MarksDistinct(marks: seq<Option<EntryId>>) {
    forall i, j :: 0 <= i < j < |marks| && marks[i].Some? ==> marks[i] != marks[j]
  }

  lemma {:induction false} WithoutAppend(a: seq<EntryId>, b: seq<EntryId>, s: set<EntryId>)
    ensures Without(a + b, s) == Without(a, s) + Without(b, s)
    decreases |a|
  {
    if a != [] {
      assert (a + b)[1..] == a[1..] + b;
      WithoutAppend(a[1..], b, s);
    } else {
      assert a + b == b;
    }
  }

  lemma {:induction false} WithoutTwice(l: seq<EntryId>, s: set<EntryId>, u: set<EntryId>)
    ensures Without(Without(l, s), u) == Without(l, s + u)
    decreases |l|
  {
    if l != [] {
      WithoutAppend(if l[0] in s then [] else [l[0]], Without(l[1..], s), u);
      WithoutTwice(l[1..], s, u);
    }
  }

  lemma {:induction false} WithoutNothing(l: seq<EntryId>, s: set<EntryId>)
    requires forall x :: x in l ==> x !in s
    ensures Without(l, s) == l
    decreases |l|
  {
    if l != [] {
      WithoutNothing(l[1..], s);
      assert [l[0]] + l[1..] == l;
    }
  }

  lemma {:induction false} WithoutNoDup(l: seq<EntryId>, s: set<EntryId>)
    requires NoDup(l)
    ensures NoDup(Without(l, s))
    decreases |l|
  {
    if l != [] {
      assert NoDup(l[1..]);
      WithoutNoDup(l[1..], s);
      WithoutMembers(l[1..], s);
    }
  }

  /**
   * Removing the entry that a TAILQ_REMOVE unlinks: for a list without duplicates, the
   * list minus e is the list with e's one position cut out.
   */
  lemma {:induction false} WithoutAt(l: seq<EntryId>, k: nat)
    requires NoDup(l) && k < |l|
    ensures Without(l, {l[k]}) == l[..k] + l[k + 1..]
    decreases k
  {
    assert NoDup(l[1..]);
    if k == 0 {
      WithoutNothing(l[1..], {l[0]});
    } else {
      WithoutAt(l[1..], k - 1);
      assert l[1..][k - 1] == l[k];
      assert l[1..][..k - 1] == l[1..k] && l[1..][k..] == l[k + 1..];
      assert [l[0]] + l[1..k] == l[..k];
    }
  }

  lemma NoDupSnoc(l: seq<EntryId>, e: EntryId)
    requires NoDup(l) && e !in l
    ensures NoDup(l + [e])
  {
  }

  lemma CutMultiset(l: seq<EntryId>, k: nat)
    requires k < |l|
    ensures multiset(l[..k] + l[k + 1..] + [l[k]]) == multiset(l)
  {
    assert l == l[..k] + [l[k]] + l[k + 1..];
  }

  /** MoveToTail keeps the list a permutation without duplicates when e is on it. */
  lemma MoveToTailPermutes(l: seq<EntryId>, e: EntryId)
    requires NoDup(l) && e in l
    ensures NoDup(MoveToTail(l, e))
    ensures multiset(MoveToTail(l, e)) == multiset(l)
  {
    var k :| 0 <= k < |l| && l[k] == e;
    WithoutAt(l, k);
    WithoutNoDup(l, {e});
    WithoutMembers(l, {e});
    NoDupSnoc(Without(l, {e}), e);
    CutMultiset(l, k);
  }

  /**
   * Draining the buffer permutes the list: when every marked entry is on it, the list
   * after clear_used_array holds the same entries, each once.
   */
  lemma {:induction false} PromotePermutes(l: seq<EntryId>, marks: seq<Option<EntryId>>)
    requires NoDup(l)
    requires forall x :: Some(x) in marks ==> x in l
    ensures NoDup(Promote(l, marks))
    ensures multiset(Promote(l, marks)) == multiset(l)
    decreases |marks|
  {
    if marks != [] {
      var m := marks[..|marks| - 1];
      assert forall x :: Some(x) in m ==> Some(x) in marks;
      PromotePermutes(l, m);
      var last := marks[|marks| - 1];
      if last.Some? {
        assert last.value in multiset(Promote(l, m));
        MoveToTailPermutes(Promote(l, m), last.value);
      }
    }
  }

  /**
   * Draining the buffer moves the marked entries, in slot order, behind the unmarked ones,
   * which keep their relative order.
   */
  lemma {:induction false} PromoteShape(l: seq<EntryId>, marks: seq<Option<EntryId>>)
    requires NoDup(l) && MarksDistinct(marks)
    requires forall x :: Some(x) in marks ==> x in l
    ensures Promote(l, marks) == Without(l, MarkedSet(marks)) + Marked(marks)
    decreases |marks|
  {
    if marks == [] {
      WithoutNothing(l, {});
    } else {
      var m := marks[..|marks| - 1];
      assert forall x :: Some(x) in m ==> Some(x) in marks;
      MarkedLast(marks);
      PromoteShape(l, m);
      ShapeStep(l, marks);
    }
  }

  /** One slot of the drain keeps the shape of PromoteShape. */
  lemma ShapeStep(l: seq<EntryId>, marks: seq<Option<EntryId>>)
    requires marks != []
    requires var m := marks[..|marks| - 1];
      && (marks[|marks| - 1].Some? ==> marks[|marks| - 1].value !in Marked(m))
      && Promote(l, m) == Without(l, MarkedSet(m)) + Marked(m)
    ensures Promote(l, marks) == Without(l, MarkedSet(marks)) + Marked(marks)
  {
    var m := marks[..|marks| - 1];
    var last := marks[|marks| - 1];
    if last.Some? {
      var e := last.value;
      assert MarkedSet(marks) == MarkedSet(m) + {e} && Marked(marks) == Marked(m) + [e];
      MoveBehindMarked(l, MarkedSet(m), Marked(m), e);
      assert Without(l, MarkedSet(m) + {e}) + Marked(m) + [e]
        == Without(l, MarkedSet(marks)) + Marked(marks);
    } else {
      assert MarkedSet(marks) == MarkedSet(m) && Marked(marks) == Marked(m);
    }
  }

  /** The last slot of a buffer with distinct marks names an entry no earlier slot names. */
  lemma MarkedLast(marks: seq<Option<EntryId>>)
    requires marks != [] && MarksDistinct(marks)
    ensures var m := marks[..|marks| - 1];
      && MarksDistinct(m)
      && (marks[|marks| - 1].Some? ==> marks[|marks| - 1].value !in Marked(m))
  {
    var m := marks[..|marks| - 1];
    assert forall i :: 0 <= i < |m| ==> m[i] == marks[i];
  }

  /** One step of PromoteShape: moving a not yet marked e to the tail of the shape. */
  lemma MoveBehindMarked(l: seq<EntryId>, sm: set<EntryId>, marked: seq<EntryId>, e: EntryId)
    requires e !in marked
    ensures MoveToTail(Without(l, sm) + marked, e) == Without(l, sm + {e}) + marked + [e]
  {
    WithoutAppend(Without(l, sm), marked, {e});
    WithoutNothing(marked, {e});
    WithoutTwice(l, sm, {e});
  }

  /**
   * The head of the drained list, the next victim: the oldest entry with no pending mark,
   * or, when every entry has one, the entry marked first.
   */
  lemma PromoteHead(l: seq<EntryId>, marks: seq<Option<EntryId>>)
    requires NoDup(l) && MarksDistinct(marks)
    requires forall x :: Some(x) in marks ==> x in l
    ensures var s := MarkedSet(marks);
      && (Without(l, s) != [] ==> |Promote(l, marks)| > 0 && Promote(l, marks)[0] == Without(l, s)[0])
      && (Without(l, s) == [] ==> Promote(l, marks) == Marked(marks))
  {
    PromoteShape(l, marks);
  }

  /** A buffer with no mark leaves the list alone. */
  lemma {:induction false} PromoteNone(l: seq<EntryId>, marks: seq<Option<EntryId>>)
    requires forall i :: 0 <= i < |marks| ==> marks[i].None?
    ensures Promote(l, marks) == l
    decreases |marks|
  {
    if marks != [] {
      PromoteNone(l, marks[..|marks| - 1]);
    }
  }
}
