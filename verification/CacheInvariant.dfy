/** How each change of the block cache keeps its list, its index and its dirty tracking in step. */
module CacheInvariant {
  import opened CacheState
  import opened Lists

  type Blocks = seq<CacheBlock>
  type Table = map<Key, nat>

  // ---- The invariant ----

  /** The hash table and the LRU list hold the same blocks, each under its own key. */
  ghost predicate Indexed(blocks: Blocks, table: Table, order: seq<nat>) {
    && (forall key :: key in table ==> table[key] in order && table[key] < |blocks| && blocks[table[key]].Key() == key)
    && (forall i :: i in order ==> i < |blocks| && blocks[i].Key() in table && table[blocks[i].Key()] == i)
  }

  /** Slots in use are clean or dirty, the rest free; listed and dirty slots are in use, dirty ones listed. */
  ghost predicate SlotStates(blocks: Blocks, used: nat, order: seq<nat>) {
    && used <= |blocks|
    && (forall i :: i in order ==> i < used)
    && (forall i :: 0 <= i < |blocks| ==>
          if i < used then blocks[i].state == Clean || (blocks[i].state == Dirty && i in order)
          else blocks[i].state == Free)
  }

  ghost function DirtySet(blocks: Blocks): set<nat> {
    set i: nat | i < |blocks| && blocks[i].IsDirty()
  }

  /** The dirty counter is exact and every dirty block is queued. */
  ghost predicate DirtyTracked(blocks: Blocks, count: int, queue: seq<nat>) {
    && count == |DirtySet(blocks)|
    && (forall i :: i in DirtySet(blocks) ==> i in queue)
    && (forall i :: i in queue ==> i < |blocks|)
  }

  /** The list is in order of last touch, most recent first. */
  ghost predicate ByRecency(blocks: Blocks, order: seq<nat>, now: nat) {
    && (forall k {:trigger TouchedBefore(blocks, order, k, now)} :: TouchedBefore(blocks, order, k, now))
    && (forall j, k {:trigger Newer(blocks, order, j, k)} :: j < k ==> Newer(blocks, order, j, k))
  }

  ghost predicate TouchedBefore(blocks: Blocks, order: seq<nat>, k: int, now: nat) {
    0 <= k < |order| && order[k] < |blocks| ==> blocks[order[k]].accessTime < now
  }

  ghost predicate Newer(blocks: Blocks, order: seq<nat>, j: int, k: int) {
    0 <= j < |order| && 0 <= k < |order| && order[j] < |blocks| && order[k] < |blocks| ==>
      blocks[order[j]].accessTime > blocks[order[k]].accessTime
  }

  ghost predicate Inv(blocks: Blocks, table: Table, head: nat, tail: nat, used: nat, order: seq<nat>,
                      count: int, queue: seq<nat>, now: nat)
  {
    && Linked(blocks, head, tail, order)
    && Indexed(blocks, table, order)
    && SlotStates(blocks, used, order)
    && DirtyTracked(blocks, count, queue)
    && ByRecency(blocks, order, now)
  }

  // ---- Each part depends on some fields only ----

  lemma LinkedCong(a: Blocks, b: Blocks, head: nat, tail: nat, order: seq<nat>)
    requires Linked(a, head, tail, order) && |a| == |b|
    requires forall i :: 0 <= i < |a| ==> b[i].lruPrev == a[i].lruPrev && b[i].lruNext == a[i].lruNext
    ensures Linked(b, head, tail, order)
  {
    forall k
      ensures LinkedAt(b, order, k)
    {
      assert LinkedAt(a, order, k);
    }
  }

  lemma IndexedCong(a: Blocks, b: Blocks, table: Table, order: seq<nat>, order': seq<nat>)
    requires Indexed(a, table, order) && |a| == |b|
    requires forall i :: 0 <= i < |a| ==> b[i].Key() == a[i].Key()
    requires forall x :: x in order' <==> x in order
    ensures Indexed(b, table, order')
  {
  }

  lemma StatesCong(a: Blocks, b: Blocks, used: nat, order: seq<nat>, order': seq<nat>)
    requires SlotStates(a, used, order) && |a| == |b|
    requires forall i :: 0 <= i < |a| ==> b[i].state == a[i].state
    requires forall x :: x in order' <==> x in order
    ensures SlotStates(b, used, order')
  {
  }

  lemma DirtyCong(a: Blocks, b: Blocks, count: int, queue: seq<nat>)
    requires DirtyTracked(a, count, queue) && |a| == |b|
    requires forall i :: 0 <= i < |a| ==> b[i].IsDirty() == a[i].IsDirty()
    ensures DirtyTracked(b, count, queue)
  {
    assert DirtySet(a) == DirtySet(b);
  }

  lemma RecencyCong(a: Blocks, b: Blocks, order: seq<nat>, now: nat, now': nat)
    requires ByRecency(a, order, now) && |a| == |b| && now <= now'
    requires forall k :: 0 <= k < |order| ==> order[k] < |a|
    requires forall i :: 0 <= i < |a| ==> b[i].accessTime == a[i].accessTime
    ensures ByRecency(b, order, now')
  {
    forall j, k | j < k
      ensures Newer(b, order, j, k)
    {
      assert Newer(a, order, j, k);
    }
    forall k
      ensures TouchedBefore(b, order, k, now')
    {
      assert TouchedBefore(a, order, k, now);
    }
  }

  lemma RecencyWithout(a: Blocks, order: seq<nat>, now: nat, i: nat)
    requires ByRecency(a, order, now) && i in order && forall k :: 0 <= k < |order| ==> order[k] < |a|
    ensures ByRecency(a, Without(order, i), now)
  {
    var o, m := Without(order, i), IndexOf(order, i);
    forall k
      ensures TouchedBefore(a, o, k, now)
    {
      if 0 <= k < |o| {
        WithoutAt(order, i, k);
        assert TouchedBefore(a, order, if k < m then k else k + 1, now);
      }
    }
    forall j, k | j < k
      ensures Newer(a, o, j, k)
    {
      if 0 <= j < k < |o| {
        WithoutAt(order, i, j);
        WithoutAt(order, i, k);
        assert Newer(a, order, if j < m then j else j + 1, if k < m then k else k + 1);
      }
    }
  }

  lemma RecencyFront(a: Blocks, order: seq<nat>, now: nat, i: nat, b: Blocks)
    requires ByRecency(a, order, now) && i < |a| && i !in order && forall k :: 0 <= k < |order| ==> order[k] < |a|
    requires |b| == |a| && b[i].accessTime == now
    requires forall x :: 0 <= x < |a| && x != i ==> b[x].accessTime == a[x].accessTime
    ensures ByRecency(b, [i] + order, now + 1)
  {
    var o, later := [i] + order, now + 1;
    forall k
      ensures TouchedBefore(b, o, k, later)
    {
      assert TouchedBefore(a, order, k - 1, now);
    }
    forall j, k | j < k
      ensures Newer(b, o, j, k)
    {
      assert TouchedBefore(a, order, k - 1, now);
      assert Newer(a, order, j - 1, k - 1);
    }
  }

  /** Block tables that differ at most in links and access times. */
  ghost predicate SameContents(a: seq<CacheBlock>, b: seq<CacheBlock>) {
    && |a| == |b|
    && forall i :: 0 <= i < |a| ==>
         b[i] == a[i].(accessTime := b[i].accessTime, lruPrev := b[i].lruPrev, lruNext := b[i].lruNext)
  }

  // ---- Changes ----

  /** A listed block is touched and moved to the front. */
  lemma TouchKeeps(blocks: Blocks, table: Table, head: nat, tail: nat, used: nat, order: seq<nat>, count: int,
                   queue: seq<nat>, now: nat, i: nat, after: Blocks, head': nat, tail': nat, o: seq<nat>)
    requires Inv(blocks, table, head, tail, used, order, count, queue, now) && i in order
    requires SameButLinks(blocks[i := blocks[i].(accessTime := now)], after)
    requires o == [i] + Without(order, i) && Linked(after, head', tail', o)
    ensures Inv(after, table, head', tail', used, o, count, queue, now + 1)
  {
    SameMembers(order, i);
    IndexedCong(blocks, after, table, order, o);
    StatesCong(blocks, after, used, order, o);
    DirtyCong(blocks, after, count, queue);
    RecencyTouched(blocks, order, now, i, after);
  }

  lemma RecencyTouched(blocks: Blocks, order: seq<nat>, now: nat, i: nat, after: Blocks)
    requires ByRecency(blocks, order, now) && i in order && Distinct(order)
    requires forall k :: 0 <= k < |order| ==> order[k] < |blocks|
    requires SameButLinks(blocks[i := blocks[i].(accessTime := now)], after)
    ensures ByRecency(after, [i] + Without(order, i), now + 1)
  {
    WithoutMembers(order, i);
    RecencyWithout(blocks, order, now, i);
    RecencyFront(blocks, Without(order, i), now, i, after);
  }

  /** The number of pins of a block concerns nothing else. */
  lemma PinKeeps(blocks: Blocks, table: Table, head: nat, tail: nat, used: nat, order: seq<nat>, count: int,
                 queue: seq<nat>, now: nat, i: nat, pins: nat)
    requires Inv(blocks, table, head, tail, used, order, count, queue, now) && i < |blocks|
    ensures Inv(blocks[i := blocks[i].(refCount := pins)], table, head, tail, used, order, count, queue, now)
  {
    var after := blocks[i := blocks[i].(refCount := pins)];
    LinkedCong(blocks, after, head, tail, order);
    IndexedCong(blocks, after, table, order, order);
    StatesCong(blocks, after, used, order, order);
    DirtyCong(blocks, after, count, queue);
    RecencyCong(blocks, after, order, now, now);
  }

  lemma SameMembers(order: seq<nat>, i: nat)
    requires i in order && Distinct(order)
    ensures forall x :: x in [i] + Without(order, i) <==> x in order
  {
    WithoutMembers(order, i);
  }

  /** A dirty block becomes clean. */
  lemma FlushKeeps(blocks: Blocks, table: Table, head: nat, tail: nat, used: nat, order: seq<nat>, count: int,
                   queue: seq<nat>, now: nat, i: nat, now': nat)
    requires Inv(blocks, table, head, tail, used, order, count, queue, now) && now <= now'
    requires i < |blocks| && blocks[i].IsDirty()
    ensures Inv(blocks[i := blocks[i].(state := Clean)], table, head, tail, used, order, count - 1, queue, now')
  {
    var after := blocks[i := blocks[i].(state := Clean)];
    LinkedCong(blocks, after, head, tail, order);
    IndexedCong(blocks, after, table, order, order);
    RecencyCong(blocks, after, order, now, now');
    CleanedTracking(blocks, used, order, count, queue, i);
  }

  lemma CleanedTracking(blocks: Blocks, used: nat, order: seq<nat>, count: int, queue: seq<nat>, i: nat)
    requires SlotStates(blocks, used, order) && DirtyTracked(blocks, count, queue)
    requires i < |blocks| && blocks[i].IsDirty()
    ensures SlotStates(blocks[i := blocks[i].(state := Clean)], used, order)
    ensures DirtyTracked(blocks[i := blocks[i].(state := Clean)], count - 1, queue)
  {
    var after := blocks[i := blocks[i].(state := Clean)];
    assert DirtySet(blocks) == DirtySet(after) + {i};
    assert i !in DirtySet(after);
  }

  /** A listed clean block becomes dirty and is queued. */
  lemma DirtyKeeps(blocks: Blocks, table: Table, head: nat, tail: nat, used: nat, order: seq<nat>, count: int,
                   queue: seq<nat>, now: nat, i: nat)
    requires Inv(blocks, table, head, tail, used, order, count, queue, now)
    requires i in order && !blocks[i].IsDirty()
    ensures Inv(blocks[i := blocks[i].(state := Dirty)], table, head, tail, used, order, count + 1, queue + [i],
                now + 1)
  {
    var after := blocks[i := blocks[i].(state := Dirty)];
    LinkedCong(blocks, after, head, tail, order);
    IndexedCong(blocks, after, table, order, order);
    RecencyCong(blocks, after, order, now, now + 1);
    DirtiedTracking(blocks, used, order, count, queue, i);
  }

  lemma DirtiedTracking(blocks: Blocks, used: nat, order: seq<nat>, count: int, queue: seq<nat>, i: nat)
    requires SlotStates(blocks, used, order) && DirtyTracked(blocks, count, queue)
    requires i in order && i < |blocks| && !blocks[i].IsDirty()
    ensures SlotStates(blocks[i := blocks[i].(state := Dirty)], used, order)
    ensures DirtyTracked(blocks[i := blocks[i].(state := Dirty)], count + 1, queue + [i])
  {
    var after := blocks[i := blocks[i].(state := Dirty)];
    assert DirtySet(after) == DirtySet(blocks) + {i};
    assert i !in DirtySet(blocks);
  }

  /** A listed clean block leaves the list and the table; its slot stays in use. */
  lemma RemoveKeeps(blocks: Blocks, table: Table, head: nat, tail: nat, used: nat, order: seq<nat>, count: int,
                    queue: seq<nat>, now: nat, i: nat, after: Blocks, head': nat, tail': nat, o: seq<nat>)
    requires Inv(blocks, table, head, tail, used, order, count, queue, now)
    requires i in order && !blocks[i].IsDirty()
    requires SameButLinks(blocks, after) && o == Without(order, i) && Linked(after, head', tail', o)
    ensures Inv(after, table - {blocks[i].Key()}, head', tail', used, o, count, queue, now)
  {
    WithoutMembers(order, i);
    RemovedIndexed(blocks, table, order, i, after);
    DirtyCong(blocks, after, count, queue);
    RecencyWithout(blocks, order, now, i);
    RecencyCong(blocks, after, o, now, now);
  }

  lemma RemovedIndexed(blocks: Blocks, table: Table, order: seq<nat>, i: nat, after: Blocks)
    requires Indexed(blocks, table, order) && i in order && Distinct(order)
    requires SameButLinks(blocks, after)
    ensures Indexed(after, table - {blocks[i].Key()}, Without(order, i))
  {
    WithoutMembers(order, i);
  }

  /** A slot that is not listed is given over to a new block. */
  lemma ResetKeeps(blocks: Blocks, table: Table, head: nat, tail: nat, used: nat, order: seq<nat>, count: int,
                   queue: seq<nat>, now: nat, i: nat, key: Key, used': nat)
    requires Inv(blocks, table, head, tail, used, order, count, queue, now)
    requires i !in order && i < |blocks| && !blocks[i].IsDirty()
    requires used' == (if i < used then used else used + 1) && i < used'
    ensures Inv(blocks[i := NewBlock(blocks[i], key, now)], table, head, tail, used', order, count, queue, now + 1)
    ensures ByRecency(blocks[i := NewBlock(blocks[i], key, now)], order, now)
  {
    var after := blocks[i := NewBlock(blocks[i], key, now)];
    LinkedCong(blocks, after, head, tail, order);
    DirtyCong(blocks, after, count, queue);
    ResetRecency(blocks, order, now, i, after);
    assert Indexed(after, table, order);
  }

  lemma ResetRecency(a: Blocks, order: seq<nat>, now: nat, i: nat, b: Blocks)
    requires ByRecency(a, order, now) && i < |a| && i !in order && |b| == |a|
    requires forall x :: 0 <= x < |a| && x != i ==> b[x].accessTime == a[x].accessTime
    ensures ByRecency(b, order, now) && ByRecency(b, order, now + 1)
  {
    var later := now + 1;
    forall k
      ensures TouchedBefore(b, order, k, now) && TouchedBefore(b, order, k, later)
    {
      assert TouchedBefore(a, order, k, now);
    }
    forall j, k | j < k
      ensures Newer(b, order, j, k)
    {
      assert Newer(a, order, j, k);
    }
  }

  /** A clean slot in use that is not listed, touched after every listed block, joins at the front. */
  lemma InsertKeeps(blocks: Blocks, table: Table, head: nat, tail: nat, used: nat, order: seq<nat>, count: int,
                    queue: seq<nat>, now: nat, i: nat, after: Blocks, head': nat, tail': nat, o: seq<nat>)
    requires Inv(blocks, table, head, tail, used, order, count, queue, now)
    requires i !in order && i < used && !blocks[i].IsDirty() && blocks[i].Key() !in table
    requires blocks[i].accessTime < now && ByRecency(blocks, order, blocks[i].accessTime)
    requires SameButLinks(blocks, after) && o == [i] + order && Linked(after, head', tail', o)
    ensures Inv(after, table[blocks[i].Key() := i], head', tail', used, o, count, queue, now)
  {
    assert forall x :: x in o <==> x == i || x in order;
    InsertedIndexed(blocks, table, order, i, after);
    DirtyCong(blocks, after, count, queue);
    RecencyFront(blocks, order, blocks[i].accessTime, i, after);
    RecencyCong(after, after, o, blocks[i].accessTime + 1, now);
  }

  /** A slot taken over by a new block; its links are left to the list. */
  function NewBlock(b: CacheBlock, key: Key, now: nat): CacheBlock {
    b.(fileId := key.0, blockNumber := key.1, state := Clean, refCount := 0, accessTime := now)
  }

  lemma InsertedIndexed(blocks: Blocks, table: Table, order: seq<nat>, i: nat, after: Blocks)
    requires Indexed(blocks, table, order) && i !in order && i < |blocks| && blocks[i].Key() !in table
    requires SameButLinks(blocks, after)
    ensures Indexed(after, table[blocks[i].Key() := i], [i] + order)
  {
    assert forall x :: x in [i] + order <==> x == i || x in order;
  }
}
