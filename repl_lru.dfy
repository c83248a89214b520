/**
 * The LRU replacement policy of vmemcache: a recency list of entries (head = next victim),
 * a fixed buffer of pending "was used" marks that is drained into the list in batches,
 * and per-entry mark state. Entries are identified by EntryId; the caller-owned
 * back-reference location of an entry (`struct repl_p_entry **ptr_entry`) is a SlotId.
 */
module ReplLru {
  import opened Wrappers
  import opened ReplSeq

  /** A caller-owned location holding a pointer to an entry (or NULL). */
  type SlotId = nat

  /** The capacity repl_p_lru_new gives the buffer of pending marks. */
  const MAX_USED: nat := 256

  /** The three values an entry's was_used field takes. */
  const UNUSED: nat := 0
  const CLAIMED: nat := 1
  const MARKED: nat := 2

  /** struct repl_p_entry without its list links: data, ptr_entry, was_used and i_used. */
  datatype Entry<D> = Entry(data: D, ptrEntry: SlotId, wasUsed: nat, iUsed: nat)

  /** The number of buffer slots clear_used_array scans: min(n_used, max_used). */
  function Fill(nUsed: nat, maxUsed: nat): (r: nat)
    ensures r <= nUsed && r <= maxUsed && (r == nUsed || r == maxUsed)
  {
    if nUsed < maxUsed then nUsed else maxUsed
  }

  /** A buffer of n slots, all NULL. */
  function EmptyBuffer(n: nat): (r: seq<Option<EntryId>>)
    ensures |r| == n && forall i :: 0 <= i < n ==> r[i].None?
  {
    seq(n, _ => None)
  }

  /** What clear_used_array does to the entry records: every mark is reset to 0. */
  function Unmark<D>(m: map<EntryId, Entry<D>>): (r: map<EntryId, Entry<D>>)
    ensures r.Keys == m.Keys
  {
    map e | e in m :: if m[e].wasUsed == MARKED then m[e].(wasUsed := UNUSED) else m[e]
  }

  /**
   * Unmark leaves no entry marked, changes nothing but was_used, and leaves alone an entry
   * that was not marked.
   */
  lemma UnmarkClears<D>(m: map<EntryId, Entry<D>>)
    ensures forall e :: e in Unmark(m) ==>
      && Unmark(m)[e].wasUsed != MARKED && Unmark(m)[e].(wasUsed := m[e].wasUsed) == m[e]
      && (m[e].wasUsed != MARKED ==> Unmark(m)[e] == m[e])
    ensures NoClaims(m) ==> NoClaims(Unmark(m))
  {
  }

  /** The buffer with e's slot emptied, if e is marked: what evicting e does to the buffer. */
  function Release<D>(used: seq<Option<EntryId>>, m: map<EntryId, Entry<D>>, e: EntryId): seq<Option<EntryId>>
  {
    if e in m && m[e].wasUsed == MARKED && m[e].iUsed < |used| then used[m[e].iUsed := None] else used
  }

  /** The entry an optional pointer names, as a set. */
  function Named(o: Option<EntryId>): set<EntryId> {
    if o.Some? then {o.value} else {}
  }

  /** The list links every live entry exactly once, and entries are allocated below nextId. */
  ghost predicate LinkedState<D>(list: seq<EntryId>, m: map<EntryId, Entry<D>>, nextId: EntryId)
  {
    && NoDup(list)
    && (forall e :: e in list <==> e in m)
    && (forall e :: e in m ==> e < nextId)
  }

  /** Each live entry's back-reference location points back at it, and no location points elsewhere. */
  ghost predicate BackRefState<D>(m: map<EntryId, Entry<D>>, slots: map<SlotId, Option<EntryId>>)
  {
    && (forall e :: e in m ==> m[e].ptrEntry in slots && slots[m[e].ptrEntry] == Some(e))
    && (forall s :: s in slots && slots[s].Some? ==> slots[s].value in m && m[slots[s].value].ptrEntry == s)
  }

  /**
   * The buffer of pending marks: a filled slot i, below filled, holds a marked entry whose
   * i_used is i, and a marked entry sits in the slot its i_used names.
   */
  ghost predicate MarksState<D>(used: seq<Option<EntryId>>, filled: nat, m: map<EntryId, Entry<D>>)
  {
    && (forall e :: e in m ==> m[e].wasUsed <= MARKED)
    && (forall i :: 0 <= i < |used| && used[i].Some? ==>
          i < filled && used[i].value in m && m[used[i].value].wasUsed == MARKED && m[used[i].value].iUsed == i)
    && (forall e :: e in m && m[e].wasUsed == MARKED ==> m[e].iUsed < |used| && used[m[e].iUsed] == Some(e))
  }

  /** No entry is half-way through repl_p_lru_use (was_used 1). */
  ghost predicate NoClaims<D>(m: map<EntryId, Entry<D>>) {
    forall e :: e in m ==> m[e].wasUsed != CLAIMED
  }

  lemma InsertKeepsLinked<D>(list: seq<EntryId>, m: map<EntryId, Entry<D>>, nextId: EntryId, x: Entry<D>)
    requires LinkedState(list, m, nextId)
    ensures nextId !in m && nextId !in list
    ensures LinkedState(list + [nextId], m[nextId := x], nextId + 1)
  {
    NoDupSnoc(list, nextId);
  }

  lemma InsertKeepsBackRefs<D>(m: map<EntryId, Entry<D>>, slots: map<SlotId, Option<EntryId>>, e: EntryId, x: Entry<D>)
    requires BackRefState(m, slots) && e !in m
    requires x.ptrEntry !in slots || slots[x.ptrEntry].None?
    ensures BackRefState(m[e := x], slots[x.ptrEntry := Some(e)])
  {
  }

  lemma InsertKeepsMarks<D>(used: seq<Option<EntryId>>, filled: nat, m: map<EntryId, Entry<D>>, e: EntryId, x: Entry<D>)
    requires MarksState(used, filled, m) && e !in m && x.wasUsed == UNUSED
    ensures MarksState(used, filled, m[e := x])
    ensures NoClaims(m) ==> NoClaims(m[e := x])
  {
  }

  /**
   * Draining keeps the one claim there is: the claimed entry's record survives
   * get_used_index, and marking it leaves no claim anywhere.
   */
  lemma ClaimsAfterIndex<D>(m0: map<EntryId, Entry<D>>, m1: map<EntryId, Entry<D>>, e: EntryId, cleared: bool, index: nat)
    requires e in m0 && m0[e].wasUsed == CLAIMED && forall x :: x in m0 && x != e ==> m0[x].wasUsed != CLAIMED
    requires !cleared ==> m1 == m0
    requires cleared ==> m1 == Unmark(m0)
    ensures e in m1 && m1[e] == m0[e]
    ensures NoClaims(m1[e := m1[e].(wasUsed := MARKED, iUsed := index)])
  {
  }

  /** Changing an entry's mark fields leaves the list and the back-references agreeing. */
  lemma RemarkKeepsLinks<D>(list: seq<EntryId>, m: map<EntryId, Entry<D>>, nextId: EntryId,
                            slots: map<SlotId, Option<EntryId>>, e: EntryId, x: Entry<D>)
    requires LinkedState(list, m, nextId) && BackRefState(m, slots)
    requires e in m && x.ptrEntry == m[e].ptrEntry
    ensures LinkedState(list, m[e := x], nextId) && BackRefState(m[e := x], slots)
  {
  }

  /** Claiming an unmarked entry (was_used 0 -> 1) keeps the buffer consistent. */
  lemma ClaimKeepsMarks<D>(used: seq<Option<EntryId>>, filled: nat, m: map<EntryId, Entry<D>>, e: EntryId)
    requires MarksState(used, filled, m) && e in m && m[e].wasUsed == UNUSED
    ensures MarksState(used, filled, m[e := m[e].(wasUsed := CLAIMED)])
  {
  }

  /** The claim is overwritten by the mark, in the drained and in the undrained case alike. */
  lemma ClaimThenMark<D>(m: map<EntryId, Entry<D>>, e: EntryId, index: nat)
    requires e in m && m[e].wasUsed == UNUSED
    ensures var c := m[e := m[e].(wasUsed := CLAIMED)];
      c[e := c[e].(wasUsed := MARKED, iUsed := index)] == m[e := m[e].(wasUsed := MARKED, iUsed := index)]
    ensures var c := m[e := m[e].(wasUsed := CLAIMED)];
      Unmark(c)[e := c[e].(wasUsed := MARKED, iUsed := index)] == Unmark(m)[e := m[e].(wasUsed := MARKED, iUsed := index)]
  {
  }

  /**
   * Recording a claimed entry in a free slot below the fill mark and marking it
   * (was_used 1 -> 2) keeps the buffer consistent.
   */
  lemma MarkKeepsMarks<D>(used: seq<Option<EntryId>>, filled: nat, m: map<EntryId, Entry<D>>, e: EntryId, index: nat)
    requires MarksState(used, filled, m)
    requires e in m && m[e].wasUsed == CLAIMED
    requires index < filled && index < |used| && used[index].None?
    ensures MarksState(used[index := Some(e)], filled, m[e := m[e].(wasUsed := MARKED, iUsed := index)])
  {
  }

  /** Unlinking an entry and freeing its record keeps the list and the records in step. */
  lemma UnlinkKeepsLinked<D>(list: seq<EntryId>, m: map<EntryId, Entry<D>>, nextId: EntryId, e: EntryId)
    requires LinkedState(list, m, nextId)
    ensures LinkedState(Without(list, {e}), m - {e}, nextId)
  {
    WithoutNoDup(list, {e});
    WithoutMembers(list, {e});
  }

  /** Clearing the back-reference location of a freed entry keeps the others pointing back. */
  lemma UnlinkKeepsBackRefs<D>(m: map<EntryId, Entry<D>>, slots: map<SlotId, Option<EntryId>>, e: EntryId)
    requires BackRefState(m, slots) && e in m
    ensures BackRefState(m - {e}, slots[m[e].ptrEntry := None])
  {
  }

  /** Emptying the buffer slot of a freed, marked entry keeps the buffer consistent. */
  lemma UnlinkKeepsMarks<D>(used: seq<Option<EntryId>>, filled: nat, m: map<EntryId, Entry<D>>, e: EntryId)
    requires MarksState(used, filled, m) && e in m
    ensures MarksState(Release(used, m, e), filled, m - {e})
    ensures NoClaims(m) ==> NoClaims(m - {e})
    ensures forall i :: 0 <= i < |used| ==> Release(used, m, e)[i] != Some(e)
  {
  }

  /** Taking the head off the list and freeing its record keeps the two in step. */
  lemma PopKeepsLinked<D>(list: seq<EntryId>, m: map<EntryId, Entry<D>>, nextId: EntryId)
    requires LinkedState(list, m, nextId) && list != []
    ensures LinkedState(list[1..], m - {list[0]}, nextId)
  {
    assert forall e :: e in list[1..] <==> e in list && e != list[0];
  }

  /** Unmarking changes no back-reference. */
  lemma UnmarkKeepsBackRefs<D>(m: map<EntryId, Entry<D>>, slots: map<SlotId, Option<EntryId>>)
    requires BackRefState(m, slots)
    ensures BackRefState(Unmark(m), slots)
  {
  }

  /** With nothing pending, the buffer is empty and no entry is marked. */
  lemma IdleBuffer<D>(used: seq<Option<EntryId>>, m: map<EntryId, Entry<D>>)
    requires MarksState(used, 0, m)
    ensures used == EmptyBuffer(|used|)
    ensures Unmark(m) == m
  {
    assert used == EmptyBuffer(|used|);
    UnmarkClears(m);
  }

  /** The pending part of a consistent buffer marks distinct entries, all of them on the list. */
  lemma PendingMarks<D>(used: seq<Option<EntryId>>, filled: nat, m: map<EntryId, Entry<D>>,
                        list: seq<EntryId>, nextId: EntryId)
    requires MarksState(used, filled, m) && LinkedState(list, m, nextId) && filled <= |used|
    ensures MarksDistinct(used[..filled])
    ensures forall x :: Some(x) in used[..filled] ==> x in list
  {
  }

  /**
   * The state of clear_used_array after its first i slots, as a function of the state it
   * started from (list l0, records m0 and buffer used0, of which filled slots count).
   */
  ghost predicate DrainInv<D>(l0: seq<EntryId>, m0: map<EntryId, Entry<D>>, nextId: EntryId,
                              used0: seq<Option<EntryId>>, filled: nat, i: nat,
                              list: seq<EntryId>, m: map<EntryId, Entry<D>>, used: seq<Option<EntryId>>)
  {
    && LinkedState(l0, m0, nextId) && MarksState(used0, filled, m0)
    && i <= filled <= |used0| && |used| == |used0|
    && (forall j :: 0 <= j < |used| ==> used[j] == if j < i then None else used0[j])
    && m.Keys == m0.Keys
    && (forall e :: e in m ==> m[e] == if m0[e].wasUsed == MARKED && m0[e].iUsed < i then m0[e].(wasUsed := UNUSED) else m0[e])
    && list == Promote(l0, used0[..i]) && NoDup(list) && multiset(list) == multiset(l0)
  }

  /**
   * One slot of clear_used_array: moving the slot's entry, if any, to the tail, unmarking it
   * and emptying the slot is the next step of Promote and of the unmarking.
   */
  lemma DrainStep<D>(l0: seq<EntryId>, m0: map<EntryId, Entry<D>>, nextId: EntryId,
                     used0: seq<Option<EntryId>>, filled: nat, i: nat,
                     list: seq<EntryId>, m: map<EntryId, Entry<D>>, used: seq<Option<EntryId>>)
    requires DrainInv(l0, m0, nextId, used0, filled, i, list, m, used)
    requires i < filled
    ensures used[i] == used0[i]
    ensures used[i].Some? ==> used[i].value in m
    ensures used[i].Some? ==>
      DrainInv(l0, m0, nextId, used0, filled, i + 1, MoveToTail(list, used[i].value),
               m[used[i].value := m[used[i].value].(wasUsed := UNUSED)], used[i := None])
    ensures used[i].None? ==> DrainInv(l0, m0, nextId, used0, filled, i + 1, list, m, used)
  {
    assert used0[..i + 1][..i] == used0[..i];
    forall e | e in m0 && m0[e].wasUsed == MARKED && m0[e].iUsed == i
      ensures used0[i] == Some(e)
    {
    }
    if used[i].Some? {
      var e := used[i].value;
      assert e in multiset(l0);
      MoveToTailPermutes(list, e);
    }
  }

  /**
   * After the whole filled part of the buffer has been drained, no entry is marked, and the
   * list, buffer and records agree again with n_used = 0.
   */
  lemma ClearDone<D>(l0: seq<EntryId>, m0: map<EntryId, Entry<D>>, nextId: EntryId,
                     used0: seq<Option<EntryId>>, filled: nat,
                     list: seq<EntryId>, m: map<EntryId, Entry<D>>, used: seq<Option<EntryId>>)
    requires DrainInv(l0, m0, nextId, used0, filled, filled, list, m, used)
    ensures list == Promote(l0, used0[..filled])
    ensures used == EmptyBuffer(|used|)
    ensures m == Unmark(m0)
    ensures LinkedState(list, m, nextId)
    ensures MarksState(used, 0, m)
  {
    assert used == EmptyBuffer(|used|);
    AllUnmarked(m0, used0, filled, m);
    forall e
      ensures e in list <==> e in m
    {
      assert e in list <==> e in multiset(l0);
    }
  }

  /** A drain of the whole filled part of the buffer has unmarked every marked entry. */
  lemma AllUnmarked<D>(m0: map<EntryId, Entry<D>>, used0: seq<Option<EntryId>>, filled: nat, m: map<EntryId, Entry<D>>)
    requires MarksState(used0, filled, m0) && filled <= |used0|
    requires m.Keys == m0.Keys
    requires forall e :: e in m ==> m[e] == if m0[e].wasUsed == MARKED && m0[e].iUsed < filled then m0[e].(wasUsed := UNUSED) else m0[e]
    ensures m == Unmark(m0)
  {
    forall e | e in m0 && m0[e].wasUsed == MARKED
      ensures m0[e].iUsed < filled
    {
      assert used0[m0[e].iUsed] == Some(e);
    }
  }

  /**
   * The loop of clear_used_array over the first filled slots of the buffer, on the list
   * and the entry records as values.
   */
  method Drain<D>(used: array<Option<EntryId>>, l0: seq<EntryId>, m0: map<EntryId, Entry<D>>,
                  ghost nextId: EntryId, ghost used0: seq<Option<EntryId>>, filled: nat)
    returns (list: seq<EntryId>, m: map<EntryId, Entry<D>>)
    requires DrainInv(l0, m0, nextId, used0, filled, 0, l0, m0, used[..])
    modifies used
    ensures DrainInv(l0, m0, nextId, used0, filled, filled, list, m, used[..])
  {
    list, m := l0, m0;
    for i := 0 to filled
      invariant DrainInv(l0, m0, nextId, used0, filled, i, list, m, used[..])
    {
      ghost var before := used[..];
      DrainStep(l0, m0, nextId, used0, filled, i, list, m, before);
      if used[i] != None {
        var e := used[i].value;
        assert before[i] == Some(e);
        list := MoveToTail(list, e);
        m := m[e := m[e].(wasUsed := UNUSED)];
        used[i] := None;
        assert used[..] == before[i := None];
      }
    }
  }

  /** struct repl_p_head together with the struct repl_p_entry records it owns. */
  class LruHead<D> {
    /** The TAILQ `first`, head first. */
    var list: seq<EntryId>
    const maxUsed: nat
    var nUsed: nat
    const used: array<Option<EntryId>>
    /** The live entry records. */
    var entries: map<EntryId, Entry<D>>
    /** What each caller-owned back-reference location holds; a location not in the map holds NULL. */
    var slots: map<SlotId, Option<EntryId>>
    /** Entries are allocated with ids below nextId. */
    var nextId: EntryId

    /** *ptr_entry */
    function Slot(s: SlotId): Option<EntryId>
      reads this
    {
      if s in slots then slots[s] else None
    }

    /**
     * The list, the entry records, the back-reference locations and the buffer agree. This
     * also holds inside repl_p_lru_use, where one entry may have claimed its mark but not yet
     * recorded it, and inside get_used_index, where n_used may pass max_used by one.
     */
    ghost predicate Consistent()
      reads this, used
    {
      && LinkedState(list, entries, nextId)
      && BackRefState(entries, slots)
      && used.Length == maxUsed && maxUsed > 0 && nUsed <= maxUsed + 1
      && MarksState(used[..], Fill(nUsed, maxUsed), entries)
    }

    /** The state between operations. */
    ghost predicate Valid()
      reads this, used
    {
      Consistent() && nUsed <= maxUsed && NoClaims(entries)
    }

    /** The pending marks, in buffer order. */
    ghost function Pending(): seq<Option<EntryId>>
      reads this, used
      requires Consistent()
    {
      used[..Fill(nUsed, maxUsed)]
    }

    /** The list as it is once the pending marks are drained into it. */
    ghost function Drained(): seq<EntryId>
      reads this, used
      requires Consistent()
    {
      Promote(list, Pending())
    }

    /**
     * The entry repl_p_lru_evict takes: the one ptr points at, or with no ptr the head of the
     * list after draining the marks; it is always a live entry.
     */
    ghost function Victim(ptr: Option<SlotId>): (r: Option<EntryId>)
      reads this, used
      requires Consistent()
      ensures r.Some? ==> r.value in entries
    {
      if ptr.Some? then Slot(ptr.value)
      else if Drained() == [] then None
      else
        PromotePermutes(list, Pending());
        assert Drained()[0] in multiset(Drained());
        Some(Drained()[0])
    }

    /**
     * Without ptr, the victim is the oldest entry with no pending mark or, when every entry
     * has a pending mark, the one marked first. This approximates LRU: only an entry's first
     * use since the last drain takes a slot, so the marked entries are ordered by first use.
     */
    lemma VictimIsOldestUnmarked()
      requires Consistent()
      ensures var marked := Marked(Pending()); var s := MarkedSet(Pending());
        && (Without(list, s) != [] ==> Victim(None) == Some(Without(list, s)[0]))
        && (Without(list, s) == [] ==> Victim(None) == if marked == [] then None else Some(marked[0]))
    {
      PendingMarks(used[..], Fill(nUsed, maxUsed), entries, list, nextId);
      PromoteHead(list, Pending());
    }

    /** The entry behind ptr has was_used 0, the case in which using it claims a mark. */
    predicate Unmarked(ptr: SlotId)
      reads this
    {
      Slot(ptr).Some? && Slot(ptr).value in entries && entries[Slot(ptr).value].wasUsed == UNUSED
    }

    /** repl_p_lru_new: an empty list and an empty buffer of 256 marks. */
    constructor ()
      ensures Valid() && fresh(used)
      ensures maxUsed == MAX_USED && nUsed == 0 && list == []
      ensures used[..] == EmptyBuffer(MAX_USED)
      ensures entries == map[] && slots == map[]
    {
      list := [];
      maxUsed := MAX_USED;
      nUsed := 0;
      used := new Option<EntryId>[MAX_USED](_ => None);
      entries := map[];
      slots := map[];
      nextId := 0;
      new;
      assert used[..] == EmptyBuffer(MAX_USED);
    }

    /**
     * repl_p_lru_insert: a new, unmarked entry for element goes to the tail of the list and
     * its back-reference location is made to point at it.
     */
    method Insert(element: D, ptr: SlotId) returns (e: EntryId)
      requires Valid()
      requires Slot(ptr).None?
      modifies this
      ensures Valid()
      ensures e !in old(entries) && list == old(list) + [e]
      ensures entries == old(entries)[e := Entry(element, ptr, UNUSED, 0)]
      ensures slots == old(slots)[ptr := Some(e)] && Slot(ptr) == Some(e)
      ensures nUsed == old(nUsed)
    {
      ghost var u, f := used[..], Fill(nUsed, maxUsed);
      var x := Entry(element, ptr, UNUSED, 0);
      InsertKeepsLinked(list, entries, nextId, x);
      InsertKeepsBackRefs(entries, slots, nextId, x);
      InsertKeepsMarks(u, f, entries, nextId, x);
      e := nextId;
      nextId, entries := nextId + 1, entries[e := x];
      slots := slots[ptr := Some(e)];
      list := list + [e];
      assert used[..] == u && Fill(nUsed, maxUsed) == f;
    }

    /**
     * clear_used_array: every entry marked in the first min(n_used, max_used) buffer slots
     * moves, in slot order, to the tail of the list and becomes unmarked; the slots are
     * emptied and n_used is reset.
     */
    method ClearUsedArray()
      requires Consistent()
      modifies this, used
      ensures Consistent()
      ensures list == Promote(old(list), old(Pending()))
      ensures nUsed == 0 && used[..] == EmptyBuffer(maxUsed)
      ensures entries == Unmark(old(entries))
      ensures slots == old(slots) && nextId == old(nextId)
    {
      var max := if nUsed < maxUsed then nUsed else maxUsed;
      ghost var u0 := used[..];
      assert Pending() == u0[..max];
      assert DrainInv(list, entries, nextId, u0, max, 0, list, entries, u0);
      var l, m := Drain(used, list, entries, nextId, u0, max);
      ghost var fin := used[..];
      ClearDone(list, entries, nextId, u0, max, l, m, fin);
      UnmarkKeepsBackRefs(entries, slots);
      list, entries, nUsed := l, m, 0;
      assert used[..] == fin && Fill(nUsed, maxUsed) == 0;
    }

    /**
     * get_used_index: the next free slot of the buffer; a full buffer is drained first and
     * the slot is then its first one.
     */
    method GetUsedIndex() returns (index: nat)
      requires Consistent() && nUsed <= maxUsed
      modifies this, used
      ensures Consistent()
      ensures index < maxUsed && used[index].None? && nUsed == index + 1
      ensures old(nUsed) < maxUsed ==>
        index == old(nUsed) && list == old(list) && entries == old(entries) && used[..] == old(used[..])
      ensures old(nUsed) == maxUsed ==>
        && index == 0 && list == Promote(old(list), old(Pending()))
        && used[..] == EmptyBuffer(maxUsed) && entries == Unmark(old(entries))
      ensures slots == old(slots) && nextId == old(nextId)
    {
      ghost var u := used[..];
      index := nUsed;
      nUsed := nUsed + 1;
      if index > maxUsed - 1 {
        assert used[..] == u;
        if nUsed >= maxUsed {
          ClearUsedArray();
        }
        index := nUsed;
        nUsed := nUsed + 1;
        assert Fill(nUsed, maxUsed) == 1;
      } else {
        assert used[..] == u;
      }
    }

    /**
     * The end of repl_p_lru_use: the claimed entry e records index as its i_used, is put in
     * that buffer slot, and its claim becomes a mark.
     */
    method Mark(e: EntryId, index: nat)
      requires Consistent() && e in entries && entries[e].wasUsed == CLAIMED
      requires index < Fill(nUsed, maxUsed) && used[index].None?
      modifies this, used
      ensures Consistent()
      ensures entries == old(entries)[e := old(entries)[e].(wasUsed := MARKED, iUsed := index)]
      ensures used[..] == old(used[..])[index := Some(e)]
      ensures list == old(list) && nUsed == old(nUsed) && slots == old(slots) && nextId == old(nextId)
    {
      ghost var m, u, f := entries, used[..], Fill(nUsed, maxUsed);
      var x := entries[e].(iUsed := index);
      used[index] := Some(e);
      if x.wasUsed == CLAIMED {
        x := x.(wasUsed := MARKED);
      } else {
        assert false;
      }
      MarkKeepsMarks(u, f, m, e, index);
      RemarkKeepsLinks(list, m, nextId, slots, e, x);
      entries := entries[e := x];
      assert used[..] == u[index := Some(e)] && Fill(nUsed, maxUsed) == f;
    }

    /**
     * The part of repl_p_lru_use after the claim: the claimed entry e gets the next buffer
     * slot and is marked.
     */
    method Record(e: EntryId)
      requires Consistent() && nUsed <= maxUsed && e in entries && entries[e].wasUsed == CLAIMED
      requires forall x :: x in entries && x != e ==> entries[x].wasUsed != CLAIMED
      modifies this, used
      ensures Valid()
      ensures e in entries && nUsed == entries[e].iUsed + 1
      ensures old(nUsed) < maxUsed ==>
        && list == old(list) && used[..] == old(used[..])[old(nUsed) := Some(e)]
        && entries == old(entries)[e := old(entries)[e].(wasUsed := MARKED, iUsed := old(nUsed))]
      ensures old(nUsed) == maxUsed ==>
        && list == Promote(old(list), old(Pending())) && used[..] == EmptyBuffer(maxUsed)[0 := Some(e)]
        && entries == Unmark(old(entries))[e := old(entries)[e].(wasUsed := MARKED, iUsed := 0)]
      ensures slots == old(slots) && nextId == old(nextId)
    {
      ghost var m0, n0 := entries, nUsed;
      var index := GetUsedIndex();
      ClaimsAfterIndex(m0, entries, e, n0 == maxUsed, index);
      Mark(e, index);
    }

    /**
     * repl_p_lru_use: an unmarked entry behind ptr is claimed, recorded in the next buffer
     * slot and marked; a NULL location or an entry already claimed or marked leaves
     * everything alone.
     */
    method Use(ptr: SlotId)
      requires Valid()
      modifies this, used
      ensures Valid()
      ensures !old(Unmarked(ptr)) ==>
        list == old(list) && nUsed == old(nUsed) && entries == old(entries) && used[..] == old(used[..])
      ensures old(Unmarked(ptr)) ==>
        var e := old(Slot(ptr)).value;
        && e in entries && nUsed == entries[e].iUsed + 1
        && (old(nUsed) < maxUsed ==>
              && list == old(list) && used[..] == old(used[..])[old(nUsed) := Some(e)]
              && entries == old(entries)[e := old(entries)[e].(wasUsed := MARKED, iUsed := old(nUsed))])
        && (old(nUsed) == maxUsed ==>
              && list == Promote(old(list), old(Pending())) && used[..] == EmptyBuffer(maxUsed)[0 := Some(e)]
              && entries == Unmark(old(entries))[e := old(entries)[e].(wasUsed := MARKED, iUsed := 0)])
      ensures slots == old(slots) && nextId == old(nextId)
    {
      var entry := Slot(ptr);
      if entry.None? {
        return;
      }
      var e := entry.value;
      if entries[e].wasUsed != UNUSED {
        return;
      }
      ghost var u, f, p, m := used[..], Fill(nUsed, maxUsed), Pending(), entries;
      ClaimKeepsMarks(u, f, m, e);
      RemarkKeepsLinks(list, m, nextId, slots, e, m[e].(wasUsed := CLAIMED));
      entries := entries[e := entries[e].(wasUsed := CLAIMED)];
      assert used[..] == u;
      assert Consistent();
      assert Pending() == p;
      Record(e);
      ClaimThenMark(m, e, entries[e].iUsed);
    }

    /** Empties the buffer slot of e when e is marked: the first half of freeing e. */
    method ReleaseSlot(e: EntryId)
      requires Valid() && e in entries
      modifies used
      ensures used[..] == Release(old(used[..]), entries, e)
      ensures MarksState(used[..], Fill(nUsed, maxUsed), entries - {e})
    {
      UnlinkKeepsMarks(used[..], Fill(nUsed, maxUsed), entries, e);
      if entries[e].wasUsed == MARKED {
        assert entries[e].iUsed < used.Length;
        used[entries[e].iUsed] := None;
      }
    }

    /** Unlinks e, whose buffer slot is already empty, and frees its record. */
    method Detach(e: EntryId)
      requires LinkedState(list, entries, nextId) && BackRefState(entries, slots)
      requires used.Length == maxUsed && maxUsed > 0 && nUsed <= maxUsed && NoClaims(entries)
      requires MarksState(used[..], Fill(nUsed, maxUsed), entries - {e})
      requires e in entries
      modifies this
      ensures Valid()
      ensures list == Without(old(list), {e}) && entries == old(entries) - {e}
      ensures slots == old(slots)[old(entries)[e].ptrEntry := None]
      ensures nUsed == old(nUsed) && nextId == old(nextId)
    {
      ghost var u := used[..];
      UnlinkKeepsLinked(list, entries, nextId, e);
      UnlinkKeepsBackRefs(entries, slots, e);
      assert NoClaims(entries - {e});
      list, slots, entries := Without(list, {e}), slots[entries[e].ptrEntry := None], entries - {e};
      assert used[..] == u;
    }

    /**
     * The common part of repl_p_lru_evict once the victim e is known: e is unlinked from
     * the list, its back-reference location is set to NULL, its buffer slot is emptied if it
     * is marked, and its record is freed; its data is returned.
     */
    method Unlink(e: EntryId) returns (element: D)
      requires Valid() && e in entries
      modifies this, used
      ensures Valid()
      ensures element == old(entries)[e].data
      ensures list == Without(old(list), {e}) && entries == old(entries) - {e}
      ensures slots == old(slots)[old(entries)[e].ptrEntry := None]
      ensures used[..] == Release(old(used[..]), old(entries), e)
      ensures nUsed == old(nUsed) && nextId == old(nextId)
    {
      ReleaseSlot(e);
      element := entries[e].data;
      Detach(e);
    }

    /**
     * The choice of repl_p_lru_evict: with ptr, the entry it points at; without, the head
     * of the list once the pending marks are drained (draining only if any are pending).
     */
    method TakeVictim(ptr: Option<SlotId>) returns (entry: Option<EntryId>)
      requires Valid()
      modifies this, used
      ensures Valid()
      ensures entry == old(Victim(ptr))
      ensures ptr.Some? ==>
        list == old(list) && entries == old(entries) && nUsed == old(nUsed) && used[..] == old(used[..])
      ensures ptr.None? ==>
        list == old(Drained()) && entries == Unmark(old(entries)) && nUsed == 0 && used[..] == EmptyBuffer(maxUsed)
      ensures slots == old(slots) && nextId == old(nextId)
    {
      if ptr.Some? {
        entry := Slot(ptr.value);
      } else {
        if nUsed > 0 {
          UnmarkClears(entries);
          ClearUsedArray();
        } else {
          IdleBuffer(used[..], entries);
          PromoteNone(list, Pending());
        }
        entry := if list == [] then None else Some(list[0]);
      }
    }

    /**
     * repl_p_lru_evict: the victim, if there is one, is unlinked and freed, its location is
     * set to NULL and its data returned; without a victim nothing is returned.
     */
    method Evict(ptr: Option<SlotId>) returns (r: Option<D>)
      requires Valid()
      modifies this, used
      ensures Valid()
      ensures r.Some? <==> old(Victim(ptr)).Some?
      ensures r.Some? ==> r.value == old(entries)[old(Victim(ptr)).value].data
      ensures ptr.Some? ==>
        var v := old(Victim(ptr));
        && list == Without(old(list), Named(v)) && entries == old(entries) - Named(v) && nUsed == old(nUsed)
        && used[..] == if v.Some? then Release(old(used[..]), old(entries), v.value) else old(used[..])
      ensures ptr.None? ==>
        var v := old(Victim(ptr));
        && list == Without(old(Drained()), Named(v)) && entries == Unmark(old(entries)) - Named(v)
        && nUsed == 0 && used[..] == EmptyBuffer(maxUsed)
      ensures var v := old(Victim(ptr));
        slots == if v.Some? then old(slots)[old(entries)[v.value].ptrEntry := None] else old(slots)
      ensures nextId == old(nextId)
    {
      UnmarkClears(entries);
      var entry := TakeVictim(ptr);
      if entry.None? {
        WithoutNothing(list, {});
        assert entries - {} == entries;
        return None;
      }
      var d := Unlink(entry.value);
      r := Some(d);
    }

    /**
     * repl_p_lru_delete: every entry is taken off the head of the list and freed, in list
     * order; the caller's back-reference locations are left as they are.
     */
    method Delete() returns (ghost freed: seq<EntryId>)
      requires Valid()
      modifies this
      ensures freed == old(list)
      ensures list == [] && entries == map[]
      ensures slots == old(slots) && nUsed == old(nUsed) && nextId == old(nextId)
    {
      freed := [];
      while list != []
        invariant LinkedState(list, entries, nextId)
        invariant freed + list == old(list)
        invariant slots == old(slots) && nUsed == old(nUsed) && nextId == old(nextId)
        decreases |list|
      {
        PopKeepsLinked(list, entries, nextId);
        entries := entries - {list[0]};
        freed := freed + [list[0]];
        list := list[1..];
      }
      assert entries.Keys == {};
    }
  }
}
