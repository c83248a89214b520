# vmemcache index and replacement policy in Dafny

This project models two parts of vmemcache, an in-memory volatile cache, and proves
properties about them.

**The crit-nib index** (`src/critnib.c`) maps byte-string keys to opaque values.
- It is a radix trie over 4-bit key slices.
- A slot is NULL, a leaf (key, value) or an internal node. An internal node has 16 child slots and a discriminator (byte, bit).
- The trie denotes a finite map: `CritnibTree.Mapping`.
- The operations keep a structural invariant, `CritnibTree.WellFormed`:
  - every internal node has at least two children;
  - every key below child `i` has nibble `i` at the node's discriminator;
  - all keys under a node agree before its discriminator.

  From this invariant the model proves two more facts: discriminators strictly increase along every root-to-leaf path, and stored keys are pairwise non-prefix.
- `critnib_new`, `critnib_get`, `critnib_set` and `critnib_remove` are methods of the class `Critnib.Index`. Its field `root` is the root slot.
- The C descents are `while` loops that carry `parent`/`pp` pointers into the tree. Here those pointers are paths of child indices. A write `*parent = x` is `ReplaceAt(root, parent, x)`.
- Each method is proved against the map the tree denotes:
  - `critnib_set` yields EEXIST exactly when a stored key equals the new key, or either is a prefix of the other;
  - `get` is map lookup;
  - `remove` is map removal, including the collapse of a parent left with one child.

**The replacement-policy engine** (`src/vmemcache_repl.c`) picks, through an ops table, one of two policies:
- the "none" policy, which keeps nothing;
- the LRU policy, the class `ReplLru.LruHead`. Its state:
  - a recency list (`list`). The head is the next victim; the tail is the most recently promoted entry.
  - a 256-slot buffer of pending "was used" marks (`used`) with its counter `nUsed`;
  - the entry records (`entries`: data, back-reference location, `was_used`, `i_used`);
  - the caller-owned back-reference locations (`slots`).

Each LRU operation except `delete` is proved to keep the invariant `LruHead.Valid()`:
- every live entry is on the list exactly once;
- each back-reference location points back at its entry;
- each filled buffer slot below the fill mark holds a marked entry whose `i_used` is that slot;
- every marked entry sits in the slot its `i_used` names;
- every other entry is unmarked.

Draining the buffer is the function `ReplSeq.Promote`. Its partner lemmas prove that it:
- permutes the list;
- moves the marked entries, in slot order, behind the unmarked ones;
- keeps the unmarked ones in their relative order.

The untargeted victim, `LruHead.Victim(None)`, is proved to be the oldest entry with no pending mark or, when every entry has a pending mark, the entry marked first. That is an approximation of LRU, not LRU itself: a use only takes a buffer slot when `was_used` is 0 (`src/vmemcache_repl.c:299`), so further uses of an entry before the next drain are not recorded, and the drain orders the marked entries by their first use, not their last.

The files:

| file | module | contents |
|---|---|---|
| `wrappers.dfy` | `Wrappers` | `Option` |
| `critnib_bits.dfy` | `CritnibBits` | bytes, keys, `slice_index`, nibble positions, XOR and the most-significant-bit index |
| `critnib_tree.dfy` | `CritnibTree` | the tree datatype, its map, the invariant, `any_leaf`, paths, and the insertion and removal lemmas along a path |
| `critnib.dfy` | `Critnib` | the descents of `critnib_set`/`critnib_remove`, the divergence point, the splice, and the class `Index` |
| `critnib_scenario.dfy` | `CritnibScenario` | small runs of the index |
| `repl_seq.dfy` | `ReplSeq` | the recency list as a sequence: removal, move-to-tail and the drain of the buffer |
| `repl_lru.dfy` | `ReplLru` | the LRU head and its invariant, `clear_used_array`, `get_used_index`, `use`, `evict`, `delete` |
| `repl_policy.dfy` | `ReplPolicy` | `struct repl_p` and the ops-table dispatch between the none and LRU policies |
| `repl_scenario.dfy` | `ReplScenario`, `ReplNoneScenario` | small runs of the LRU and none policies |

Two properties of the code that the model keeps:
- The pending-use buffer is not circular. When it fills, the code drains it and starts again at slot 0 (`src/vmemcache_repl.c:272-279`), and the model does the same.
- When the `used` buffer cannot be allocated, `repl_p_lru_new` returns -1, leaves `*head` unset, and does not free the head it has just allocated (`src/vmemcache_repl.c:194-196`). Allocation is not modelled at all (see below).

## Model

| member | source | states |
|---|---|---|
| CritnibBits.SliceIndex | src/critnib.c:67-71 | the child index `(b >> bit) & NIB` is always below 16 |
| CritnibBits.SliceIndexNibbles | src/critnib.c:67-71 | shift 4 selects the high nibble, shift 0 the low nibble, and the two make up the byte |
| CritnibBits.SliceIndexIsNib | src/critnib.c:182-184 | when a node's byte is inside the key, the byte the descent reads is in range, and the slot it selects is the key's nibble at the node's position |
| CritnibBits.DescendConditionIsPosOrder | src/critnib.c:222-223 | the second descent's test `byte < diff \|\| (byte == diff && bit >= sh)` is root-to-leaf order of nibble positions |
| CritnibBits.AgreeFromBytes | src/critnib.c:201-208 | keys with a common byte prefix of length d agree on their first 2d nibbles |
| CritnibBits.Xor | src/critnib.c:216 | the XOR of two bytes is zero exactly when they are equal |
| CritnibBits.Mssb | src/critnib.c:217 | `util_mssb_index(x)` for `x > 0`: `2^r <= x < 2^(r+1)`, so r is the index of the most significant set bit (`MssbBounds` states the same bound by bound) |
| CritnibBits.MssbBounds | src/critnib.c:217 | `util_mssb_index(x) >= n` exactly when `x >= 2^n`: it is the index of the most significant set bit |
| CritnibBits.SpliceShift | src/critnib.c:216-217 | for differing bytes, `sh` is 0 or 4; it is 4 exactly when the high nibbles differ; the two bytes select different slots at `sh` |
| CritnibBits.XorBelow256 | src/critnib.c:216 | the XOR of two bytes is a byte |
| CritnibTree.AnyLeaf | src/critnib.c:141-150 | the result is a leaf or NULL; a leaf found holds a key stored under the node; in a well-formed node a leaf is always found (the `ASSERT(n)` of lines 193-198) |
| CritnibTree.AnyLeafFrom | src/critnib.c:144-149 | the scan from slot i finds a leaf stored under slots i.. whenever one of them is occupied |
| CritnibTree.NodeMember | src/critnib.c:266-270 | a key is stored under a node exactly when the node's byte is inside the key and the key is stored under the child its nibble selects, with the same value |
| CritnibTree.ChildSub | src/critnib.c:266-270 | the child of a well-formed node is well formed, and its entries are entries of the node |
| CritnibTree.NoPrefixPairs | src/critnib.c:202-213 | no two different stored keys are byte-wise prefixes of each other |
| CritnibTree.DiscriminatorsIncrease | src/critnib.c:220-250 | a child node's nibble position lies strictly after its parent's |
| CritnibTree.Grow | src/critnib.c:233-250 | writing, at the end of the key's path, a well-formed subtree holding the old subtree's entries plus the key gives a well-formed tree holding the old entries plus the key |
| CritnibTree.Shrink | src/critnib.c:326-352 | writing, at the end of a path, a well-formed subtree holding some of the old subtree's entries gives a well-formed tree that lost exactly the entries it dropped |
| CritnibTree.SomeKey | src/critnib.c:193-198 | a non-empty well-formed tree stores at least one key |
| CritnibTree.At | src/critnib.c:224-225 | the tree a path of slot indices leads to, the `n = *parent` of the descents; `PathSnoc` states that one more step reads child i of that node, and `AtSub` that it is a well-formed part of a well-formed tree |
| CritnibTree.ReplaceAt | src/critnib.c:234 | the tree after `*parent = s` (also lines 250, 327 and 351); `AtReplaceAt` states that the path then leads to s, and `Grow` and `Shrink` state its effect on the entries and on the invariant |
| Critnib.DivergencePoint | src/critnib.c:215-217 | the keys agree on every nibble before `(diff, sh)`, both are long enough for it, and they select different slots there |
| Critnib.SpliceNode | src/critnib.c:246-249 | the fresh node with `byte = diff`, `bit = sh`, the old subtree in slot a and the new leaf in slot b; `Splice` states that for the divergence point the two slots differ and that the node is well formed, with the subtree's entries plus the new key |
| Critnib.SubtreeAgrees | src/critnib.c:177-181 | every key under the subtree the divergence point splits agrees with the comparison key up to and including that nibble |
| Critnib.SpliceCore | src/critnib.c:246-250 | the new node with the old subtree and the new leaf in their two slots is well formed and holds the subtree's entries plus the new key |
| Critnib.SpliceMapping | src/critnib.c:246-247 | a node with only those two children holds exactly the subtree's entries plus the new key |
| Critnib.Splice | src/critnib.c:239-250 | the spliced node's `bit` is a multiple of SLICE; the old subtree and the new leaf go to two different slots; the node is well formed and holds the subtree's entries plus the new key |
| Critnib.SecondDescentStep | src/critnib.c:222-226 | a step of the second descent stays on the key's path and on the first descent's path, unless it reaches the empty slot where the first descent stopped |
| Critnib.KeyAgreesBelow | src/critnib.c:222-226 | above the divergence point, every key below the current node agrees with the new key before the node's discriminator |
| Critnib.StaysOnFirstPath | src/critnib.c:182-191 | while the slot taken is occupied, the second descent follows the first one |
| Critnib.ClearLeafSlot | src/critnib.c:326-347 | clearing the leaf's slot in a parent that keeps two children leaves it well formed, without just that key |
| Critnib.CollapseParent | src/critnib.c:349-351 | the only child left is a well-formed subtree holding all of the parent's other keys |
| Critnib.OnlyChildMapping | src/critnib.c:337-347 | a node whose only occupied slot is j holds exactly child j's entries |
| Critnib.FindLeaf | src/critnib.c:182-199 | the first descent follows the key; it ends at an empty slot or at a node beyond the key, and returns a stored leaf of the subtree reached; if the key is stored, the leaf found holds it |
| Critnib.FindDiff | src/critnib.c:201-208 | `diff` is the length of the longest common byte prefix of the two keys |
| Critnib.FindSlot | src/critnib.c:219-226 | the second descent ends on the key's path at a slot whose node, if any, lies after `(diff, sh)`; a non-empty slot lies on the first descent's path |
| Critnib.FindRemoval | src/critnib.c:298-311 | the slot of the key's leaf, if it is stored (with its value), and the parent path `pp` with the slot's index in it; `pp` is NULL exactly at the root |
| Critnib.DetachLeaf | src/critnib.c:326-352 | clearing the leaf's slot under its parent and, when the parent is left with one child, putting that child in its place, gives a well-formed tree without just that key |
| Critnib.Index.constructor | src/critnib.c:76-85 | a new index is empty |
| Critnib.Index.Get | src/critnib.c:258-284 | the value stored for the key, or NULL when the key is not stored (including when a node's byte is beyond the key) |
| Critnib.Index.Set | src/critnib.c:155-253 | EEXIST exactly when a stored key is equal to, a prefix of or an extension of the new key, and then the tree is untouched; otherwise the contents gain the key and keep every other entry; in an empty index the root becomes the new leaf; the invariant is kept |
| Critnib.Index.Remove | src/critnib.c:291-355 | returns the stored value, or NULL for an absent key, and then the tree is untouched; the contents lose exactly the key; a parent left with one child is replaced by it, so the invariant is kept |
| Critnib.UnlinkLeaf | src/critnib.c:326-327 | clearing `*parent` is replacing the parent node at `pp` by a copy with the leaf's slot emptied |
| Critnib.KeepParent | src/critnib.c:338-344 | with two children left the tree stays well formed and loses only the key |
| Critnib.DropParent | src/critnib.c:349-351 | putting the only child in the parent's place keeps the tree well formed, and it loses only the key |
| Critnib.NewKeyIsNotPrefix | src/critnib.c:210-213 | after a successful set, no previously stored key is a prefix of the new key or an extension of it |
| CritnibScenario.FirstKeyIsFound | src/critnib.c:170-175 | setting a key in a new index succeeds, and getting it returns its value |
| CritnibScenario.ExtensionRefused | src/critnib.c:210-212 | setting `[7, 8]` after `[7]` yields EEXIST, and `[7]` keeps its value |
| CritnibScenario.RemoveOne | src/critnib.c:349-352 | of `[7]` and `[9]`, removing `[7]` returns its value; afterwards `[7]` is absent and `[9]` still maps to its value |
| ReplSeq.Without | src/vmemcache_repl.c:333 | the list with the entries of a set unlinked; `WithoutMembers` states that exactly the other entries stay, and `WithoutAt` that unlinking one entry cuts out just its position |
| ReplSeq.WithoutMembers | src/vmemcache_repl.c:333 | after unlinking a set of entries, the list holds exactly the other entries |
| ReplSeq.Marked | src/vmemcache_repl.c:255-256 | the entries the buffer marks are exactly those in a non-NULL slot |
| ReplSeq.MarkedSet | src/vmemcache_repl.c:255-256 | the set of entries in a non-NULL slot |
| ReplSeq.WithoutAt | src/vmemcache_repl.c:333 | TAILQ_REMOVE of an entry that occurs once cuts out just its position; the others keep their order |
| ReplSeq.WithoutNoDup | src/vmemcache_repl.c:333 | unlinking keeps every entry on the list at most once |
| ReplSeq.WithoutAppend | src/vmemcache_repl.c:333 | unlinking from a concatenation unlinks from both parts |
| ReplSeq.MoveToTail | src/vmemcache_repl.c:257 | TAILQ_MOVE_TO_TAIL: the entry unlinked and appended; `MoveToTailPermutes` states that this permutes a list holding it, without duplicates |
| ReplSeq.Promote | src/vmemcache_repl.c:255-261 | the list after draining the buffer slot by slot; `PromotePermutes` states that it is a permutation, and `PromoteShape` that the unmarked entries come first, in order, then the marked ones in slot order |
| ReplSeq.MoveToTailPermutes | src/vmemcache_repl.c:257 | TAILQ_MOVE_TO_TAIL of a listed entry keeps the list a permutation without duplicates |
| ReplSeq.PromotePermutes | src/vmemcache_repl.c:254-261 | the drain of the buffer permutes the list |
| ReplSeq.PromoteShape | src/vmemcache_repl.c:254-261 | the drain of the buffer puts the unmarked entries first, in their old order, followed by the marked entries in slot order |
| ReplSeq.PromoteHead | src/vmemcache_repl.c:323-325 | the head after the drain is the oldest unmarked entry, or, when every entry is marked, the one marked first |
| ReplSeq.PromoteNone | src/vmemcache_repl.c:323-324 | a buffer without marks leaves the list alone, so an evict with `n_used == 0` may skip the drain |
| ReplLru.Fill | src/vmemcache_repl.c:254 | `min(n_used, max_used)`: no more than either, and equal to one of them |
| ReplLru.EmptyBuffer | src/vmemcache_repl.c:194 | the zeroed buffer: n slots, all NULL |
| ReplLru.Unmark | src/vmemcache_repl.c:258 | resetting `was_used` frees no record |
| ReplLru.UnmarkClears | src/vmemcache_repl.c:255-261 | after the drain, no entry is marked; only `was_used` changes; an unmarked entry is untouched |
| ReplLru.Release | src/vmemcache_repl.c:338-339 | the buffer after `used[i_used] = NULL` for a marked entry, unchanged otherwise; `UnlinkKeepsMarks` states that it keeps the buffer consistent with no slot naming the freed entry, and `LruHead.ReleaseSlot` computes it on the array |
| ReplLru.InsertKeepsLinked | src/vmemcache_repl.c:239 | the new id is not on the list, and linking it at the tail keeps the list and the records in step |
| ReplLru.InsertKeepsBackRefs | src/vmemcache_repl.c:233-234 | pointing a NULL location at the new entry keeps every back-reference consistent |
| ReplLru.InsertKeepsMarks | src/vmemcache_repl.c:226-230 | a new unmarked entry (the zeroed `was_used`) keeps the buffer consistent |
| ReplLru.ClaimKeepsMarks | src/vmemcache_repl.c:299 | the claim `was_used` 0 to 1 keeps the buffer consistent |
| ReplLru.MarkKeepsMarks | src/vmemcache_repl.c:300-302 | recording a claimed entry in a free slot below the fill mark and marking it keeps the buffer consistent |
| ReplLru.ClaimsAfterIndex | src/vmemcache_repl.c:300 | `get_used_index` (draining or not) keeps the claimed entry's record, and marking it leaves no other claim |
| ReplLru.ClaimThenMark | src/vmemcache_repl.c:299-302 | claiming and then marking is the same as marking outright, whether or not the buffer was drained in between |
| ReplLru.UnlinkKeepsLinked | src/vmemcache_repl.c:333 | unlinking an entry and freeing its record keeps the list and the records in step |
| ReplLru.UnlinkKeepsBackRefs | src/vmemcache_repl.c:336 | nulling the freed entry's location keeps the other back-references |
| ReplLru.UnlinkKeepsMarks | src/vmemcache_repl.c:338-339 | clearing `used[i_used]` of a marked freed entry keeps the buffer consistent, and no slot names the freed entry |
| ReplLru.PopKeepsLinked | src/vmemcache_repl.c:209-211 | freeing the head of the list keeps the list and the records in step |
| ReplLru.UnmarkKeepsBackRefs | src/vmemcache_repl.c:258 | unmarking changes no back-reference |
| ReplLru.IdleBuffer | src/vmemcache_repl.c:323 | with `n_used == 0` the buffer is all NULL and no entry is marked |
| ReplLru.PendingMarks | src/vmemcache_repl.c:46-60 | the pending slots mark distinct entries, all of them on the list |
| ReplLru.DrainStep | src/vmemcache_repl.c:256-260 | one slot of `clear_used_array`: it moves to the tail, unmarks and nulls, which is the next step of the drain and of the unmarking |
| ReplLru.ClearDone | src/vmemcache_repl.c:255-263 | after the loop, the list is the drained list, the buffer is empty, every mark is reset, and the invariant holds with `n_used = 0` |
| ReplLru.AllUnmarked | src/vmemcache_repl.c:255-261 | draining the first `min(n_used, max_used)` slots unmarks every marked entry |
| ReplLru.Drain | src/vmemcache_repl.c:255-261 | the loop of `clear_used_array` computes the drain of the buffer on the list and on the records |
| ReplLru.LruHead.constructor | src/vmemcache_repl.c:183-200 | `max_used` is 256, `n_used` is 0, the list is empty and the buffer is all NULL |
| ReplLru.LruHead.Slot | src/vmemcache_repl.c:295 | `*ptr_entry`: the entry a back-reference location names, or NULL; `LruHead.Victim` and `LruHead.Use` read an entry through it, and `Valid()` makes it point back at a live entry |
| ReplLru.LruHead.Victim | src/vmemcache_repl.c:320-326 | with a location, the entry it points at; without one, the head of the drained list; always a live entry |
| ReplLru.LruHead.VictimIsOldestUnmarked | src/vmemcache_repl.c:320-326 | without a location, the victim is the oldest entry with no pending mark; if all are marked, the entry marked first; with an empty list, none |
| ReplLru.LruHead.Insert | src/vmemcache_repl.c:222-244 | the new unmarked entry goes to the tail of the list, and its location points at it; nothing else changes, and the invariant is kept |
| ReplLru.LruHead.ClearUsedArray | src/vmemcache_repl.c:249-264 | the list becomes the drained list, and each drained entry is unmarked; slots are nulled and `n_used` is 0; list membership and locations do not change |
| ReplLru.LruHead.GetUsedIndex | src/vmemcache_repl.c:269-285 | the index returned is below `max_used` and its slot is free; below capacity it is the old `n_used`; at capacity the buffer is drained first, and it is 0 |
| ReplLru.LruHead.Mark | src/vmemcache_repl.c:300-305 | the claimed entry records its slot, is stored in it and becomes marked; the `abort()` branch is unreachable |
| ReplLru.LruHead.Record | src/vmemcache_repl.c:300-305 | the claimed entry gets the next slot (after a drain when the buffer is full) and is marked |
| ReplLru.LruHead.Use | src/vmemcache_repl.c:290-307 | an unmarked entry behind the location gets `used[i_used] == entry`, `i_used < max_used` and `was_used == 2`; a NULL location or an already marked entry changes nothing |
| ReplLru.LruHead.ReleaseSlot | src/vmemcache_repl.c:338-339 | a marked entry's buffer slot is emptied; other slots stay |
| ReplLru.LruHead.Detach | src/vmemcache_repl.c:333-336 | the entry leaves the list, with the others in order; its location is set to NULL and its record is freed |
| ReplLru.LruHead.Unlink | src/vmemcache_repl.c:333-347 | the victim leaves the list and its location is set to NULL; its slot is cleared if it is marked; its data is returned |
| ReplLru.LruHead.TakeVictim | src/vmemcache_repl.c:318-326 | returns the victim; a targeted choice changes nothing, an untargeted one drains the buffer first |
| ReplLru.LruHead.Evict | src/vmemcache_repl.c:312-348 | returns the victim's data, or NULL when there is none; removes exactly the victim, with the others in their order; nulls its location and clears its slot if it is marked; an untargeted evict drains first |
| ReplLru.LruHead.Delete | src/vmemcache_repl.c:205-217 | frees every entry, head first, in list order; the list ends empty and the locations are left alone |
| ReplPolicy.ReplP.Init | src/vmemcache_repl.c:117-123 | the ops row of the kind creates the head: NULL for none, an empty LRU head otherwise |
| ReplPolicy.ReplP.Insert | src/vmemcache_repl.c:155-160 | the none policy returns NULL; LRU appends a new entry and points the location at it |
| ReplPolicy.ReplP.Use | src/vmemcache_repl.c:165-168 | nothing for the none policy; for LRU, an unmarked entry becomes marked, and otherwise the list and records do not change |
| ReplPolicy.ReplP.Evict | src/vmemcache_repl.c:173-177 | the none policy returns NULL; LRU returns the victim's data, and the victim leaves the list and the records with its location set to NULL |
| ReplPolicy.ReplP.Destroy | src/vmemcache_repl.c:128-132 | the LRU list and records end empty, and the locations are untouched |
| ReplScenario.EvictHead | src/vmemcache_repl.c:320-347 | an untargeted evict returns the head of the drained list, leaves the rest of it and leaves no mark pending |
| ReplScenario.TwoEntries | src/vmemcache_repl.c:222-244 | inserting A then B gives the list A, B, with A's location pointing at A and A unmarked |
| ReplScenario.InsertionOrder | src/vmemcache_repl.c:322-331 | inserts A, B evict as A, B, then nothing |
| ReplScenario.UseHead | src/vmemcache_repl.c:290-307 | using the first of two entries makes the drained list the other entry followed by it |
| ReplScenario.PromoteFirst | src/vmemcache_repl.c:257 | moving the first of two entries to the tail swaps them |
| ReplScenario.UsedGoesLast | src/vmemcache_repl.c:323-325 | inserts A, B with A used before evicting evict as B, A |
| ReplNoneScenario.NoneKeepsNothing | src/vmemcache_repl.c:137-177 | under the none policy, insert and both kinds of evict return NULL |

## Left out

- Locking:
  - All mutex calls are left out, and each operation is one sequential critical section.
  - `critnib_set`, `critnib_get` and `critnib_remove` call `os_mutex_unlock` where a lock is evidently meant (`src/critnib.c:169`, `264`, `297`), and the EEXIST return at line 212 releases nothing. This concerns concurrency only, which is not modelled.
- Atomics: `__sync_fetch_and_add` and the compare-and-swap steps of `repl_p_lru_use` are plain sequential updates. `ReplLru.LruHead.Mark` shows that the `abort()` branch cannot be reached in sequential use.
- Allocation:
  - `malloc`/`Zalloc`/`Free` and the ENOMEM and -1 results are not modelled: creating a head, a leaf, a node or an entry always succeeds.
  - That is why `ReplPolicy.ReplP.Init` has no status result.
  - The leaked head at `src/vmemcache_repl.c:194-196` and the leaked leaf on the EEXIST return are therefore not shown.
- Freeing: `delete_node`/`critnib_delete` are not part of this model. `repl_p_lru_delete`'s freeing of `used` and of the head is reduced to "the list and records end empty".
- Tagged pointers: the bit tricks of `is_leaf`/`to_leaf` (`src/critnib.c:49-62`, `167`) are the constructors of `CritnibTree.Tree`.
- Key layout:
  - Ignored:
    - the `cache_entry` key layout (`ksize` followed by the bytes, `src/critnib.c:162-163`);
    - the key's lifetime;
    - the value's type.
  - A key is an opaque sequence of unsigned bytes, and values are a type parameter.
  - Because bytes are 0..255, the shift is 0 or 4. The sign extension of a signed `char` XOR, which could give shift 28, is not modelled.
- Integer widths: `byten_t`, `bitn_t` and `unsigned` are unbounded naturals. In sequential use `n_used` never exceeds `max_used + 1`, so it does not wrap around. Key lengths are also unbounded: the cast of `ksize + sizeof(ksize)` to the 32-bit `byten_t` (`src/critnib.c:163`) truncates the length of a key of 2^32 - 8 bytes or more, and the model does not capture that truncation, so it describes only keys shorter than that.
- `vmemcache_entry_acquire` (`src/vmemcache_repl.c:238`) is an external reference count and is not modelled.
- `util_mssb_index` is a library call. It is specified by `CritnibBits.Mssb` as the index of the most significant set bit.
- Headers: `src/vmemcache_repl.h` and `src/critnib.h` hold declarations only.
  - The `repl_p_init` prototype disagrees with its definition.
  - `dram_per_entry` is unused.
- Entry identity and back-references:
  - Entries are identified by ids from a counter, and back-reference locations by `SlotId`s.
  - Pointer aliasing between a location and other memory is not modelled.
  - The TAILQ links are the sequence `list`.
- ReplLru.LruHead.Insert: requires the back-reference location to hold NULL. The C code overwrites `*ptr_entry` unconditionally, and would then break the back-reference of any entry already there. The requirement is the caller's obligation: the `*ptr_entry` slot belongs to a newly created cache entry and holds NULL.
- ReplLru.LruHead.Delete: states that the entries end freed and that the locations are kept. It does not ensure `Valid()`, and `Valid()` does not hold afterwards when an entry was live: the locations still name the freed entries, as `src/vmemcache_repl.c:208-212` leaves each `*ptr_entry` pointing at a freed entry. The freeing of `used` and of the head is not modelled.
- ReplPolicy.ReplP.Insert: has the same NULL-location requirement as `ReplLru.LruHead.Insert`.
- ReplPolicy.ReplP.Use: states only the mark and the unchanged list. The full effect on the buffer and the drain is stated by `ReplLru.LruHead.Use`, which it calls.
- ReplPolicy.ReplP.Evict: states the returned data, and the removal of the victim from the list, the records and its location. The order of the remaining entries and the buffer are stated by `ReplLru.LruHead.Evict`, which it calls.
- The LRU eviction-order example with three entries is not a scenario here:
  - Inserts A, B, C evict as A, B, C.
  - Marking B first gives A, C, B.

  `ReplLru.LruHead.VictimIsOldestUnmarked` and `ReplSeq.PromoteShape` state that order for any number of entries. The scenarios use two entries.
- Shape canonicity: after removals the index is proved well formed with exactly the remaining contents, so no single-child node survives. It is not proved structurally equal to the index built by inserting only the remaining keys.
