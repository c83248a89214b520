/**
 * The eviction order of the LRU policy on a small run: two entries inserted as A, B are
 * evicted as A, B; using A before the first eviction makes the order B, A.
 */
module ReplScenario {
  import opened Wrappers
  import opened ReplSeq
  import opened ReplLru

  /**
   * An untargeted eviction takes the head of the drained list and leaves the rest of it,
   * with no mark pending.
   */
  method EvictHead<D>(h: LruHead<D>) returns (r: Option<D>)
    requires h.Valid()
    modifies h, h.used
    ensures h.Valid() && h.nUsed == 0
    ensures old(h.Drained()) == [] ==> r.None? && h.list == []
    ensures old(h.Drained()) != [] ==>
      && old(h.Drained())[0] in old(h.entries)
      && r == Some(old(h.entries)[old(h.Drained())[0]].data) && h.list == old(h.Drained())[1..]
      && h.entries.Keys == old(h.entries).Keys - {old(h.Drained())[0]}
      && forall e :: e in h.entries ==> h.entries[e].data == old(h.entries)[e].data
  {
    UnmarkClears(h.entries);
    ghost var d := h.Drained();
    PendingMarks(h.used[..], Fill(h.nUsed, h.maxUsed), h.entries, h.list, h.nextId);
    PromotePermutes(h.list, h.Pending());
    if d != [] {
      WithoutAt(d, 0);
      assert d[..0] + d[1..] == d[1..];
    }
    r := h.Evict(None);
  }

  /** A fresh head holding A at location 0 and B at location 1, inserted in that order. */
  method TwoEntries() returns (h: LruHead<char>)
    ensures fresh(h) && fresh(h.used) && h.Valid() && h.nUsed == 0 && |h.list| == 2
    ensures h.entries[h.list[0]].data == 'A' && h.entries[h.list[1]].data == 'B'
    ensures h.Slot(0) == Some(h.list[0]) && h.entries[h.list[0]].wasUsed == UNUSED
  {
    h := new LruHead<char>();
    var a := h.Insert('A', 0);
    var b := h.Insert('B', 1);
    assert h.list == [a, b];
  }

  /** Two inserts and three untargeted evictions: first in, first out, then nothing. */
  method InsertionOrder() returns (first: Option<char>, second: Option<char>, third: Option<char>)
    ensures first == Some('A') && second == Some('B') && third == None
  {
    var h := TwoEntries();
    first := EvictHead(h);
    second := EvictHead(h);
    third := EvictHead(h);
  }

  /** Using the entry at the head of a two-entry list queues it behind the other one. */
  method UseHead<D>(h: LruHead<D>)
    requires h.Valid() && h.nUsed == 0 && |h.list| == 2
    requires h.Slot(0) == Some(h.list[0]) && h.entries[h.list[0]].wasUsed == UNUSED
    modifies h, h.used
    ensures h.Valid() && h.Drained() == [old(h.list)[1], old(h.list)[0]]
    ensures h.entries.Keys == old(h.entries).Keys
    ensures forall e :: e in h.entries ==> h.entries[e].data == old(h.entries)[e].data
  {
    ghost var a, b := h.list[0], h.list[1];
    assert h.Unmarked(0);
    ghost var u := h.used[..];
    h.Use(0);
    assert h.used[..] == u[0 := Some(a)] && h.nUsed == 1;
    assert h.Pending() == [Some(a)];
    assert h.list == [a, b] && a != b;
    PromoteFirst(a, b);
  }

  /** Draining a mark on the first of two entries swaps them. */
  lemma PromoteFirst(a: EntryId, b: EntryId)
    requires a != b
    ensures Promote([a, b], [Some(a)]) == [b, a]
  {
    assert Promote([a, b], [Some(a)]) == MoveToTail([a, b], a);
    WithoutAt([a, b], 0);
    assert [a, b][..0] + [a, b][1..] == [b];
  }

  /** Using A marks it; the drain at the next eviction moves it behind B. */
  method UsedGoesLast() returns (first: Option<char>, second: Option<char>)
    ensures first == Some('B') && second == Some('A')
  {
    var h := TwoEntries();
    UseHead(h);
    first := EvictHead(h);
    second := EvictHead(h);
  }
}

/** The none policy, reached through the ops table of ReplPolicy. */
module ReplNoneScenario {
  import opened Wrappers
  import opened ReplSeq
  import opened ReplPolicy

  /** The none policy, reached through the ops table, keeps nothing. */
  method NoneKeepsNothing() returns (e: Option<EntryId>, r1: Option<int>, r2: Option<int>)
    ensures e.None? && r1.None? && r2.None?
  {
    var p := new ReplP<int>.Init(NonePolicy);
    e := p.Insert(5, 0);
    p.Use(0);
    r1 := p.Evict(Some(0));
    r2 := p.Evict(None);
    p.Destroy();
  }
}
