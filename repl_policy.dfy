/**
 * The replacement-policy front end of vmemcache (struct repl_p): repl_p_init picks the
 * operations of a policy from the ops table and lets it create its head, and every later
 * call goes through that table. The "none" policy keeps no state (its head is NULL): it
 * inserts, uses and evicts nothing. The LRU policy is the LruHead of ReplLru.
 */
module ReplPolicy {
  import opened Wrappers
  import opened ReplSeq
  import opened ReplLru

  /** enum vmemcache_replacement_policy: the index into the ops table. */
  datatype PolicyKind = NonePolicy | Lru

  /** struct repl_p: the chosen row of the ops table and the head it created. */
  class ReplP<D> {
    const kind: PolicyKind
    /** NULL for the none policy. */
    const head: LruHead?<D>

    /** The objects the policy's operations may change. */
    ghost function Repr(): set<object>
      reads this, head
    {
      if head == null then {} else {head, head.used}
    }

    /** The head matches the chosen ops row and, for LRU, is consistent. */
    ghost predicate Valid()
      reads this, Repr()
    {
      && (kind == NonePolicy <==> head == null)
      && (head != null ==> head.Valid())
    }

    /** repl_p_init: the ops row for kind creates the head; creating a head always succeeds here. */
    constructor Init(kind: PolicyKind)
      ensures this.kind == kind && Valid() && fresh(Repr())
      ensures head != null ==> head.list == [] && head.entries == map[] && head.nUsed == 0
    {
      this.kind := kind;
      if kind == Lru {
        head := new LruHead<D>();
      } else {
        head := null;
      }
    }

    /**
     * ops->repl_p_insert: the none policy makes no entry (and leaves *ptr_entry alone);
     * LRU appends a new entry and points the location at it.
     */
    method Insert(element: D, ptr: SlotId) returns (e: Option<EntryId>)
      requires Valid()
      requires head != null ==> head.Slot(ptr).None?
      modifies Repr()
      ensures Valid()
      ensures head == null ==> e.None?
      ensures head != null ==>
        && e.Some? && e.value !in old(head.entries) && head.list == old(head.list) + [e.value]
        && head.entries == old(head.entries)[e.value := Entry(element, ptr, UNUSED, 0)]
        && head.Slot(ptr) == Some(e.value)
    {
      if head == null {
        return None;
      }
      var x := head.Insert(element, ptr);
      return Some(x);
    }

    /**
     * ops->repl_p_use: nothing for the none policy; for LRU an unmarked entry behind ptr
     * becomes marked and nothing else is touched otherwise.
     */
    method Use(ptr: SlotId)
      requires Valid()
      modifies Repr()
      ensures Valid()
      ensures head != null && old(head.Unmarked(ptr)) ==>
        var e := old(head.Slot(ptr)).value;
        e in head.entries && head.entries[e].wasUsed == MARKED && head.entries[e].data == old(head.entries)[e].data
      ensures head != null && !old(head.Unmarked(ptr)) ==>
        head.list == old(head.list) && head.entries == old(head.entries)
    {
      if head != null {
        head.Use(ptr);
      }
    }

    /**
     * ops->repl_p_evict: the none policy evicts nothing; LRU evicts its victim and returns
     * the victim's data, having set the victim's location to NULL.
     */
    method Evict(ptr: Option<SlotId>) returns (r: Option<D>)
      requires Valid()
      modifies Repr()
      ensures Valid()
      ensures head == null ==> r.None?
      ensures head != null ==>
        var v := old(head.Victim(ptr));
        && (r.Some? <==> v.Some?)
        && (v.Some? ==>
              && r.value == old(head.entries)[v.value].data && v.value !in head.entries
              && v.value !in head.list && head.Slot(old(head.entries)[v.value].ptrEntry).None?)
    {
      if head == null {
        return None;
      }
      ghost var v := head.Victim(ptr);
      ghost var l0, d0 := head.list, head.Drained();
      r := head.Evict(ptr);
      if v.Some? {
        WithoutMembers(if ptr.Some? then l0 else d0, {v.value});
      }
    }

    /**
     * repl_p_destroy: ops->repl_p_delete frees every entry of the LRU list (and nothing for
     * the none policy); the caller's back-reference locations are left as they are.
     */
    method Destroy()
      requires Valid()
      modifies Repr()
      ensures head != null ==> head.list == [] && head.entries == map[] && head.slots == old(head.slots)
    {
      if head != null {
        var _ := head.Delete();
      }
    }
  }
}
