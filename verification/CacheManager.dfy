/** The block cache of `fs/cache.rs` under its default LRU policy, with the disk behind it. */
module CacheManager {
  import opened ByteRanges
  import opened Bytes
  import opened CacheState
  import opened CacheInvariant
  import opened CacheView
  import opened Lists
  import opened Wrappers

  /** How much of the cache is dirty, as the write-back thresholds classify it. */
  datatype Pressure = Hard | Soft | Few

  /** How many queued blocks a write-back takes. */
  function Quota(pressure: Pressure, queued: nat): (n: nat)
    ensures n <= queued
  {
    match pressure
    case Hard => queued
    case Soft => queued / 2
    case Few => if queued < 16 then queued else 16
  }

  /** The access tracking of a file, a new one if there is none. */
  function Tracked(readahead: map<nat, ReadAhead>, file: nat): ReadAhead {
    if file in readahead then readahead[file] else ReadAhead(0, 0, READAHEAD_MIN, 0)
  }

  /** How many slots have been handed out once one more is asked for. */
  function NextUsed(used: nat): nat {
    if used < MAX_CACHE_BLOCKS then used + 1 else used
  }

  /** No blocks but the file's have entered the cache. */
  ghost predicate EntersOnly(before: set<Key>, after: set<Key>, file: nat) {
    forall key :: key in after ==> key in before || key.0 == file
  }

  /** The `n` blocks of a file from `first` on are cached. */
  ghost predicate AllAhead(keys: set<Key>, file: nat, first: nat, n: nat) {
    forall i :: first <= i < first + n ==> (file, i) in keys
  }

  lemma EntersNothing(keys: set<Key>, file: nat)
    ensures EntersOnly(keys, keys, file)
  {
  }

  lemma EntersTwice(a: set<Key>, b: set<Key>, c: set<Key>, file: nat)
    requires EntersOnly(a, b, file) && EntersOnly(b, c, file)
    ensures EntersOnly(a, c, file)
  {
  }

  ghost predicate AllClean(blocks: seq<CacheBlock>, slots: seq<nat>) {
    forall k :: 0 <= k < |slots| ==> slots[k] < |blocks| && !blocks[slots[k]].IsDirty()
  }

  /** Block `i` is clean and no other became dirty. */
  ghost predicate CleanedAt(before: seq<CacheBlock>, after: seq<CacheBlock>, i: nat) {
    && |after| == |before| && i < |after| && !after[i].IsDirty()
    && forall j :: 0 <= j < |after| && after[j].IsDirty() ==> before[j].IsDirty()
  }

  lemma CleanNone(blocks: seq<CacheBlock>, slots: seq<nat>)
    requires slots == []
    ensures AllClean(blocks, slots)
  {
  }

  lemma CleanMore(before: seq<CacheBlock>, after: seq<CacheBlock>, queue: seq<nat>, n: nat)
    requires n < |queue| && AllClean(before, queue[..n]) && CleanedAt(before, after, queue[n])
    ensures AllClean(after, queue[..n + 1])
  {
    var more := queue[..n + 1];
    forall k | 0 <= k < |more|
      ensures more[k] < |after| && !after[more[k]].IsDirty()
    {
      assert k < n ==> queue[..n][k] == queue[k];
    }
  }

  lemma NothingQueued(blocks: seq<CacheBlock>, table: map<Key, nat>, head: nat, tail: nat, used: nat, order: seq<nat>,
                      count: int, queue: seq<nat>, now: nat)
    requires Inv(blocks, table, head, tail, used, order, count, queue, now) && queue == []
    ensures count == 0 && forall i :: 0 <= i < |blocks| ==> !blocks[i].IsDirty()
  {
    EmptyQueue(blocks, count, queue);
  }

  lemma PopKeeps(blocks: seq<CacheBlock>, count: int, queue: seq<nat>)
    requires DirtyTracked(blocks, count, queue) && queue != [] && queue[0] < |blocks| && !blocks[queue[0]].IsDirty()
    ensures DirtyTracked(blocks, count, queue[1..])
  {
    assert forall i :: i in queue[1..] ==> i in queue;
    forall i | i in DirtySet(blocks)
      ensures i in queue[1..]
    {
      var k := IndexOf(queue, i);
      assert queue[1..][k - 1] == i;
    }
  }

  lemma EmptyQueue(blocks: seq<CacheBlock>, count: int, queue: seq<nat>)
    requires DirtyTracked(blocks, count, queue) && queue == []
    ensures count == 0 && forall i :: 0 <= i < |blocks| ==> !blocks[i].IsDirty()
  {
    assert DirtySet(blocks) == {};
    forall i | 0 <= i < |blocks|
      ensures !blocks[i].IsDirty()
    {
      assert i !in DirtySet(blocks);
    }
  }

  ghost predicate Splits(keys: set<Key>, others: set<Key>, pending: set<Key>) {
    keys == others + pending && others !! pending
  }

  lemma SplitsStart(keys: set<Key>, others: set<Key>, pending: set<Key>, file: nat)
    requires pending == set key | key in keys && key.0 == file
    requires others == set key | key in keys && key.0 != file
    ensures Splits(keys, others, pending)
  {
  }

  lemma SplitsDone(keys: set<Key>, others: set<Key>)
    requires Splits(keys, others, {})
    ensures keys == others
  {
  }

  lemma SplitsStep(keys: set<Key>, others: set<Key>, pending: set<Key>, key: Key)
    requires Splits(keys, others, pending) && key in pending
    ensures key in keys && Splits(keys - {key}, others, pending - {key})
  {
  }

  ghost function Named(notices: seq<Key>): set<Key> {
    set key | key in notices
  }

  /** Of all notifications so far, the first `taken` are dealt with and the rest are queued. */
  ghost predicate Pending(notices: seq<Key>, taken: nat, queue: seq<Key>, start: set<Key>, keys: set<Key>) {
    taken <= |notices| && queue == notices[taken..] && keys == start - Named(notices[..taken])
  }

  lemma PendingStart(queue: seq<Key>, keys: set<Key>)
    ensures Pending(queue, 0, queue, keys, keys)
  {
  }

  lemma PendingStep(notices: seq<Key>, taken: nat, queue: seq<Key>, start: set<Key>, keys: set<Key>, queue': seq<Key>,
                    keys': set<Key>)
    returns (notices': seq<Key>)
    requires Pending(notices, taken, queue, start, keys) && queue != []
    requires queue' == queue[1..] || queue' == queue[1..] + [queue[0]]
    requires keys' == keys - {queue[0]}
    ensures Pending(notices', taken + 1, queue', start, keys') && Named(notices') == Named(notices)
  {
    notices' := if queue' == queue[1..] then notices else notices + [queue[0]];
    assert notices[taken] == queue[0];
    assert notices'[taken + 1..] == queue';
    assert notices'[..taken + 1] == notices[..taken] + [queue[0]];
    assert Named(notices'[..taken + 1]) == Named(notices[..taken]) + {queue[0]};
  }

  lemma PendingDone(notices: seq<Key>, taken: nat, start: set<Key>, keys: set<Key>)
    requires Pending(notices, taken, [], start, keys)
    ensures keys == start - Named(notices)
  {
    assert notices[..taken] == notices;
  }

  ghost predicate WindowsBounded(readahead: map<nat, ReadAhead>) {
    forall f :: f in readahead ==> readahead[f].windowSize <= READAHEAD_MAX
  }

  lemma NowLater(blocks: seq<CacheBlock>, table: map<Key, nat>, head: nat, tail: nat, used: nat, order: seq<nat>,
                 count: int, queue: seq<nat>, now: nat, later: nat)
    requires Inv(blocks, table, head, tail, used, order, count, queue, now) && now <= later
    ensures Inv(blocks, table, head, tail, used, order, count, queue, later)
  {
    RecencyCong(blocks, blocks, order, now, later);
  }

  lemma FrontStays(order: seq<nat>, i: nat)
    requires i in order && order[0] == i
    ensures [i] + Without(order, i) == order
  {
  }

  lemma OldestEvictable(blocks: seq<CacheBlock>, order: seq<nat>, k: int, now: nat)
    requires ByRecency(blocks, order, now) && forall j :: 0 <= j < |order| ==> order[j] < |blocks|
    requires 0 <= k < |order| && forall j :: k < j < |order| ==> !blocks[order[j]].CanEvict()
    ensures forall i :: i in order && blocks[i].CanEvict() ==> blocks[order[k]].accessTime <= blocks[i].accessTime
  {
    forall i | i in order && blocks[i].CanEvict()
      ensures blocks[order[k]].accessTime <= blocks[i].accessTime
    {
      var j := IndexOf(order, i);
      assert j < k ==> Newer(blocks, order, j, k);
    }
  }

  // ---- Pins ----

  ghost predicate AllPinned(blocks: seq<CacheBlock>, order: seq<nat>) {
    forall i :: i in order ==> i < |blocks| && blocks[i].refCount > 0
  }

  ghost predicate NonePinned(blocks: seq<CacheBlock>) {
    forall i :: 0 <= i < |blocks| ==> blocks[i].refCount == 0
  }

  ghost predicate SamePins(a: seq<CacheBlock>, b: seq<CacheBlock>) {
    |a| == |b| && forall i :: 0 <= i < |a| ==> b[i].refCount == a[i].refCount
  }

  lemma ListedInRange(blocks: seq<CacheBlock>, table: map<Key, nat>, order: seq<nat>)
    requires Indexed(blocks, table, order)
    ensures forall i :: i in order ==> i < |blocks|
  {
  }

  lemma ListedOnce(blocks: seq<CacheBlock>, head: nat, tail: nat, order: seq<nat>)
    requires Linked(blocks, head, tail, order)
    ensures Distinct(order)
  {
  }

  lemma TouchedContents(before: seq<CacheBlock>, i: nat, time: nat, after: seq<CacheBlock>)
    requires i < |before| && SameButLinks(before[i := before[i].(accessTime := time)], after)
    ensures SameContents(before, after) && SamePins(before, after) && |after| == |before|
  {
  }

  lemma PinsSame(a: seq<CacheBlock>, order: seq<nat>, b: seq<CacheBlock>, order': seq<nat>)
    requires SamePins(a, b) && forall x :: x in order' ==> x in order
    ensures AllPinned(a, order) ==> AllPinned(b, order')
    ensures (forall x :: x in order ==> x in order') ==> AllPinned(a, order) == AllPinned(b, order')
    ensures NonePinned(a) ==> NonePinned(b)
  {
  }

  /** A cache that holds an unpinned block is not exhausted. */
  lemma HoldsUnpinned(blocks: seq<CacheBlock>, order: seq<nat>, i: nat)
    requires i in order && i < |blocks| && blocks[i].refCount == 0
    ensures !AllPinned(blocks, order)
  {
  }

  lemma NothingListed(blocks: seq<CacheBlock>, table: map<Key, nat>, order: seq<nat>)
    requires Indexed(blocks, table, order) && NonePinned(blocks)
    ensures AllPinned(blocks, order) <==> table == map[]
  {
    if table != map[] {
      var key :| key in table;
      HoldsUnpinned(blocks, order, table[key]);
    }
  }

  class CacheManager {
    var blocks: seq<CacheBlock>
    var data: seq<Data>
    var hashTable: map<Key, nat>
    var lruHead: nat
    var lruTail: nat
    var blocksUsed: nat
    var dirtyBlocks: int
    var readahead: map<nat, ReadAhead>
    var dirtyQueue: seq<nat>
    var invalidationQueue: seq<Key>
    var coherencyMode: CoherencyMode
    var now: nat  // the counter behind current_time
    var disk: Disk
    ghost var order: seq<nat>
    ghost const owner: Owner

    ghost predicate Valid()
      reads this
    {
      && Inv(blocks, hashTable, lruHead, lruTail, blocksUsed, order, dirtyBlocks, dirtyQueue, now)
      && |blocks| == |data| == MAX_CACHE_BLOCKS
      && WindowsBounded(readahead)
    }

    /**
     * What files have cached of their own blocks agrees with the disk wherever it is clean; only own blocks are dirty.
     */
    ghost predicate CoherentBut(hole: int)
      reads this
    {
      && Owned(blocks, hashTable, owner)
      && CleanOnDisk(blocks, data, hashTable, disk, owner, hole)
    }

    ghost predicate Coherent()
      reads this
    {
      CoherentBut(-1)
    }

    /** The plain block store that the cache stands for. */
    ghost function Store(): (store: Store)
      reads this`data, this`hashTable, this`disk
      ensures Full(store)
    {
      Views(data, hashTable, disk, owner)
    }

    ghost predicate NoneDirty()
      reads this
    {
      forall i :: 0 <= i < |blocks| ==> !blocks[i].IsDirty()
    }

    /**
     * No slot can be had: all have been handed out, and no listed block may be evicted. An empty list counts:
     * slots of dropped blocks are never handed out again.
     */
    ghost predicate Exhausted()
      reads this`blocksUsed, this`blocks, this`order
    {
      blocksUsed == MAX_CACHE_BLOCKS && AllPinned(blocks, order)
    }

    ghost predicate Unpinned()
      reads this`blocks
    {
      NonePinned(blocks)
    }

    /** Without pins the cache is exhausted exactly when every slot has been handed out and every block dropped. */
    lemma ExhaustedUnpinned()
      requires Valid() && Unpinned()
      ensures Exhausted() <==> hashTable == map[] && blocksUsed == MAX_CACHE_BLOCKS
    {
      NothingListed(blocks, hashTable, order);
    }

    constructor (mode: CoherencyMode, disk: Disk, ghost owner: Owner)
      ensures Valid() && Coherent() && NoneDirty() && hashTable == map[] && order == [] && invalidationQueue == []
      ensures coherencyMode == mode && this.disk == disk && this.owner == owner && blocksUsed == 0 && Unpinned()
      ensures forall i :: 0 <= i < |data| ==> data[i] == ZERO_PAGE
      ensures forall n: nat :: Store()[n] == DiskRead(disk, n)
    {
      blocks := seq(MAX_CACHE_BLOCKS, _ => CacheBlock(0, 0, Free, 0, 0, NIL, NIL));
      data := seq(MAX_CACHE_BLOCKS, _ => ZERO_PAGE);
      hashTable := map[];
      lruHead, lruTail, blocksUsed, dirtyBlocks, now := NIL, NIL, 0, 0, 0;
      readahead, dirtyQueue, invalidationQueue := map[], [], [];
      coherencyMode := mode;
      this.disk := disk;
      this.owner := owner;
      order := [];
      new;
      assert DirtySet(blocks) == {};
    }

    // ---- The LRU list ----

    method AddToLru(i: nat)
      requires Linked(blocks, lruHead, lruTail, order) && i < |blocks| && i !in order
      modifies this`blocks, this`lruHead, this`lruTail, this`order
      ensures order == [i] + old(order) && Linked(blocks, lruHead, lruTail, order)
      ensures SameButLinks(old(blocks), blocks)
    {
      PushFrontLinks(blocks, lruHead, lruTail, order, i);
      if lruHead == NIL {
        lruHead := i;
        lruTail := i;
        blocks := blocks[i := blocks[i].(lruPrev := NIL, lruNext := NIL)];
      } else {
        blocks := blocks[i := blocks[i].(lruPrev := NIL, lruNext := lruHead)];
        blocks := blocks[lruHead := blocks[lruHead].(lruPrev := i)];
        lruHead := i;
      }
      order := [i] + order;
    }

    method RemoveFromLru(i: nat)
      requires Linked(blocks, lruHead, lruTail, order) && i in order
      modifies this`blocks, this`lruHead, this`lruTail, this`order
      ensures order == Without(old(order), i) && Linked(blocks, lruHead, lruTail, order)
      ensures SameButLinks(old(blocks), blocks)
    {
      UnlinkLinks(blocks, lruHead, lruTail, order, i);
      var prev, next := blocks[i].lruPrev, blocks[i].lruNext;
      if prev != NIL {
        blocks := blocks[prev := blocks[prev].(lruNext := next)];
      } else {
        lruHead := next;
      }
      if next != NIL {
        blocks := blocks[next := blocks[next].(lruPrev := prev)];
      } else {
        lruTail := prev;
      }
      blocks := blocks[i := blocks[i].(lruPrev := NIL, lruNext := NIL)];
      order := Without(order, i);
    }

    method MoveToLruHead(i: nat)
      requires Linked(blocks, lruHead, lruTail, order) && i in order
      modifies this`blocks, this`lruHead, this`lruTail, this`order
      ensures order == [i] + Without(old(order), i) && Linked(blocks, lruHead, lruTail, order)
      ensures SameButLinks(old(blocks), blocks)
    {
      WithoutMembers(order, i);
      if lruHead == i {
        FrontStays(order, i);
        return;
      }
      RemoveFromLru(i);
      AddToLru(i);
    }

    method Refresh(i: nat)
      requires Linked(blocks, lruHead, lruTail, order) && i in order
      modifies this`blocks, this`lruHead, this`lruTail, this`order
      ensures order == [i] + Without(old(order), i) && Linked(blocks, lruHead, lruTail, order)
      ensures SameButLinks(old(blocks)[i := old(blocks)[i].(accessTime := now)], blocks)
    {
      LinkedCong(blocks, blocks[i := blocks[i].(accessTime := now)], lruHead, lruTail, order);
      blocks := blocks[i := blocks[i].(accessTime := now)];
      MoveToLruHead(i);
    }

    /** A block is looked at: it becomes the most recent one. */
    method TouchBlock(i: nat)
      requires Valid() && i in order
      modifies this`blocks, this`lruHead, this`lruTail, this`order, this`now
      ensures Valid() && order == [i] + Without(old(order), i)
      ensures SameContents(old(blocks), blocks)
      ensures old(Coherent()) ==> Coherent()
      ensures Exhausted() == old(Exhausted()) && (old(Unpinned()) ==> Unpinned())
    {
      hide Linked, Indexed, SlotStates, DirtyTracked, ByRecency, Owned, CleanOnDisk, SameButLinks, SameContents;
      hide SamePins;
      hide AllPinned, NonePinned;
      ListedInRange(blocks, hashTable, order);
      Refresh(i);
      TouchKeeps(old(blocks), hashTable, old(lruHead), old(lruTail), blocksUsed, old(order), dirtyBlocks, dirtyQueue,
                 now, i,
                 blocks, lruHead, lruTail, order);
      now := now + 1;
      TouchedContents(old(blocks), i, old(now), blocks);
      if old(Coherent()) {
        CleanSame(old(blocks), blocks, data, hashTable, disk, owner);
      }
      ListedOnce(old(blocks), old(lruHead), old(lruTail), old(order));
      SameMembers(old(order), i);
      PinsSame(old(blocks), old(order), blocks, order);
    }

    // ---- Write-back ----

    method SendInvalidation(key: Key)
      modifies this`invalidationQueue, this`now
      ensures invalidationQueue == old(invalidationQueue) + [key] && now == old(now) + 1
    {
      invalidationQueue := invalidationQueue + [key];
      now := now + 1;
    }

    /** Write a dirty block to disk; clients see no difference. */
    method FlushBlock(i: nat, ghost hole: int)
      requires Valid() && CoherentBut(hole) && i < |blocks|
      modifies this`blocks, this`dirtyBlocks, this`disk, this`invalidationQueue, this`now
      ensures Valid() && CoherentBut(hole) && Store() == old(Store())
      ensures blocks == if old(blocks)[i].IsDirty() then old(blocks)[i := old(blocks)[i].(state := Clean)]
                    else old(blocks)
      ensures disk == if old(blocks)[i].IsDirty() then old(disk)[blocks[i].blockNumber := data[i]] else old(disk)
      ensures dirtyBlocks == old(dirtyBlocks) - if old(blocks)[i].IsDirty() then 1 else 0
      ensures invalidationQueue ==
                if old(blocks)[i].IsDirty() && coherencyMode == WriteBackInvalidate
                then old(invalidationQueue) + [blocks[i].Key()]
                else old(invalidationQueue)
      ensures Exhausted() == old(Exhausted()) && (old(Unpinned()) ==> Unpinned())
    {
      hide Linked, DirtyTracked, ByRecency, Owned, CleanOnDisk, Views, AllPinned, NonePinned;
      if blocks[i].state == Dirty {
        blocks := blocks[i := blocks[i].(state := Writing)];
        var key := blocks[i].Key();
        disk := disk[key.1 := data[i]];
        blocks := blocks[i := blocks[i].(state := Clean)];
        dirtyBlocks := dirtyBlocks - 1;
        if coherencyMode == WriteBackInvalidate {
          SendInvalidation(key);
        }
        assert blocks == old(blocks)[i := old(blocks)[i].(state := Clean)];
        FlushKeeps(old(blocks), hashTable, lruHead, lruTail, blocksUsed, order, old(dirtyBlocks), dirtyQueue, old(now),
                   i, now);
        FlushView(old(blocks), data, hashTable, old(disk), owner, order, i, hole);
        PinsSame(old(blocks), order, blocks, order);
      }
    }

    // ---- Eviction ----

    /** The least recently touched block that may be evicted, or none when no listed block may. */
    method EvictLru() returns (victim: Option<nat>)
      requires Valid()
      ensures victim.Some? ==> victim.value in order && blocks[victim.value].CanEvict()
      ensures victim.Some? ==>
                forall i :: i in order && blocks[i].CanEvict() ==>
                    blocks[victim.value].accessTime <= blocks[i].accessTime
      ensures victim.None? ==> forall i :: i in order ==> !blocks[i].CanEvict()
    {
      var current := lruTail;
      ghost var k: int := |order| - 1;
      DistinctBounded(order, MAX_CACHE_BLOCKS);
      for n := 0 to MAX_CACHE_BLOCKS
        invariant k == |order| - 1 - n && -1 <= k && current == At(order, k)
        invariant forall j :: k < j < |order| ==> !blocks[order[j]].CanEvict()
      {
        if current == NIL {
          break;
        }
        if blocks[current].CanEvict() {
          OldestEvictable(blocks, order, k, now);
          return Some(current);
        }
        assert LinkedAt(blocks, order, k);
        current := blocks[current].lruPrev;
        k := k - 1;
      }
      return None;
    }

    /** Take a listed block out of the table and the list, writing it back first. */
    method DropBlock(i: nat)
      requires Valid() && Coherent() && i in order
      modifies this`blocks, this`dirtyBlocks, this`disk, this`invalidationQueue, this`now,
               this`hashTable, this`lruHead, this`lruTail, this`order
      ensures Valid() && Coherent() && Store() == old(Store())
      ensures order == Without(old(order), i) && hashTable == old(hashTable) - {old(blocks)[i].Key()}
      ensures i !in order && i < blocksUsed && !blocks[i].IsDirty()
      ensures invalidationQueue == old(invalidationQueue)
           || invalidationQueue == old(invalidationQueue) + [old(blocks)[i].Key()]
      ensures (old(Exhausted()) ==> Exhausted()) && (old(Unpinned()) ==> Unpinned())
    {
      hide Linked, DirtyTracked, ByRecency, Owned, CleanOnDisk, Views;
      if blocks[i].IsDirty() {
        FlushBlock(i, -1);
      }
      Forget(i);
    }

    method DropKey(key: Key)
      requires Valid() && Coherent() && key in hashTable
      modifies this`blocks, this`dirtyBlocks, this`disk, this`invalidationQueue, this`now,
               this`hashTable, this`lruHead, this`lruTail, this`order
      ensures Valid() && Coherent() && Store() == old(Store())
      ensures hashTable.Keys == old(hashTable).Keys - {key} && |hashTable| < |old(hashTable)|
      ensures invalidationQueue == old(invalidationQueue) || invalidationQueue == old(invalidationQueue) + [key]
      ensures (old(Exhausted()) ==> Exhausted()) && (old(Unpinned()) ==> Unpinned())
    {
      DropBlock(hashTable[key]);
      assert old(hashTable).Keys == hashTable.Keys + {key};
    }

    method Forget(i: nat)
      requires Valid() && Coherent() && i in order && !blocks[i].IsDirty()
      modifies this`blocks, this`hashTable, this`lruHead, this`lruTail, this`order
      ensures Valid() && Coherent() && Store() == old(Store())
      ensures order == Without(old(order), i) && hashTable == old(hashTable) - {old(blocks)[i].Key()}
      ensures i !in order && SameButLinks(old(blocks), blocks)
      ensures (old(Exhausted()) ==> Exhausted()) && (old(Unpinned()) ==> Unpinned())
    {
      hide Indexed, DirtyTracked, ByRecency, Owned, CleanOnDisk, Views;
      RemoveFromLru(i);
      hashTable := hashTable - {blocks[i].Key()};
      RemoveKeeps(old(blocks), old(hashTable), old(lruHead), old(lruTail), blocksUsed, old(order), dirtyBlocks,
                  dirtyQueue, now,
                  i, blocks, lruHead, lruTail, order);
      RemoveView(old(blocks), blocks, data, old(hashTable), disk, owner, old(order), i);
      WithoutMembers(old(order), i);
      PinsSame(old(blocks), old(order), blocks, order);
    }

    method EvictBlock() returns (victim: Option<nat>)
      requires Valid() && Coherent()
      modifies this`blocks, this`dirtyBlocks, this`disk, this`invalidationQueue, this`now,
               this`hashTable, this`lruHead, this`lruTail, this`order
      ensures Valid() && Coherent() && Store() == old(Store())
      ensures hashTable.Keys <= old(hashTable).Keys
      ensures victim.Some? ==> victim.value !in order && victim.value < blocksUsed && !blocks[victim.value].IsDirty()
      ensures victim.Some? ==>
                victim.value in old(order) && hashTable == old(hashTable) - {old(blocks)[victim.value].Key()}
      ensures victim.Some? ==> forall i :: i in old(order) && old(blocks)[i].CanEvict() ==>
                                 old(blocks)[victim.value].accessTime <= old(blocks)[i].accessTime
      ensures victim.None? <==> AllPinned(old(blocks), old(order))
      ensures victim.None? ==> hashTable == old(hashTable) && blocks == old(blocks) && order == old(order)
      ensures old(Unpinned()) ==> Unpinned()
    {
      victim := EvictLru();
      if victim.Some? {
        DropBlock(victim.value);
      }
    }

    /** Find a slot for a block that is not cached, if there is one; the slot still holds what it held before. */
    method Allocate(key: Key) returns (r: Option<nat>)
      requires Valid() && Coherent() && key !in hashTable
      modifies this`blocks, this`dirtyBlocks, this`disk, this`invalidationQueue, this`now,
               this`hashTable, this`lruHead, this`lruTail, this`order, this`blocksUsed
      ensures Valid()
      ensures r.None? <==> old(Exhausted())
      ensures r.None? ==> Coherent() && Store() == old(Store()) && hashTable == old(hashTable)
      ensures r.Some? ==> CoherentBut(r.value) && Cached(key, r.value) && !blocks[r.value].IsDirty()
      ensures r.Some? ==> Store() == Shown(old(Store()), owner, key, data[r.value])
      ensures r.Some? && Mine(owner, key) ==> old(Store())[key.1] == DiskRead(disk, key.1)
      ensures r.Some? ==> hashTable.Keys <= old(hashTable).Keys + {key}
      ensures old(blocksUsed) < MAX_CACHE_BLOCKS ==>
                r == Some(old(blocksUsed)) && hashTable == old(hashTable)[key := r.value]
      ensures blocksUsed == NextUsed(old(blocksUsed))
      ensures Exhausted() == old(Exhausted()) && (old(Unpinned()) ==> Unpinned())
    {
      hide Linked, Indexed, DirtyTracked, ByRecency, Owned, CleanOnDisk, Views, Mine, AllPinned, NonePinned;
      var slot;
      if blocksUsed < MAX_CACHE_BLOCKS {
        slot := blocksUsed;
      } else {
        var victim := EvictBlock();
        if victim.None? {
          return None;
        }
        slot := victim.value;
      }
      if Mine(owner, key) {
        MissedView(data, hashTable, disk, owner, key);
      }
      Place(key, slot);
      return Some(slot);
    }

    /** The key is cached in this slot. */
    ghost predicate Cached(key: Key, i: nat)
      reads this
    {
      key in hashTable && hashTable[key] == i && i in order && i < |blocks| && blocks[i].Key() == key
    }

    method Place(key: Key, i: nat)
      requires Valid() && Coherent() && key !in hashTable
      requires i !in order && i < |blocks| && i <= blocksUsed && !blocks[i].IsDirty()
      modifies this`blocks, this`now, this`hashTable, this`lruHead, this`lruTail, this`order, this`blocksUsed
      ensures Valid() && CoherentBut(i) && Cached(key, i) && !blocks[i].IsDirty()
      ensures hashTable == old(hashTable)[key := i]
      ensures Store() == Shown(old(Store()), owner, key, data[i])
      ensures blocksUsed == if i < old(blocksUsed) then old(blocksUsed) else i + 1
      ensures !Exhausted() && (old(Unpinned()) ==> Unpinned())
    {
      ResetSlot(key, i);
      LinkSlot(i);
    }

    /** Hand an unlisted slot over to a new block. */
    method ResetSlot(key: Key, i: nat)
      requires Valid() && Coherent() && i !in order && i < |blocks| && i <= blocksUsed && !blocks[i].IsDirty()
      modifies this`blocks, this`now, this`blocksUsed
      ensures Valid() && Coherent() && i < blocksUsed
      ensures blocks == old(blocks)[i := NewBlock(old(blocks)[i], key, old(now))] && now == old(now) + 1
      ensures ByRecency(blocks, order, old(now)) && blocksUsed == if i < old(blocksUsed) then old(blocksUsed) else i + 1
    {
      hide Linked, Indexed, DirtyTracked, ByRecency, Owned, CleanOnDisk;
      ResetKeeps(blocks, hashTable, lruHead, lruTail, blocksUsed, order, dirtyBlocks, dirtyQueue, now, i, key,
                 if i < blocksUsed then blocksUsed else blocksUsed + 1);
      if i == blocksUsed {
        blocksUsed := blocksUsed + 1;
      }
      blocks := blocks[i := NewBlock(blocks[i], key, now)];
      now := now + 1;
      ResetView(old(blocks), blocks, data, hashTable, disk, owner, order, i);
    }

    /** Enter an unlisted slot under its key, as the most recent block. */
    method LinkSlot(i: nat)
      requires Valid() && Coherent() && i !in order && i < blocksUsed && !blocks[i].IsDirty()
      requires blocks[i].Key() !in hashTable
      requires blocks[i].accessTime < now && ByRecency(blocks, order, blocks[i].accessTime)
      modifies this`blocks, this`hashTable, this`lruHead, this`lruTail, this`order
      ensures Valid() && CoherentBut(i) && Cached(old(blocks)[i].Key(), i)
      ensures hashTable == old(hashTable)[old(blocks)[i].Key() := i]
      ensures Store() == Shown(old(Store()), owner, old(blocks)[i].Key(), data[i])
      ensures SameButLinks(old(blocks), blocks)
    {
      hide Indexed, DirtyTracked, ByRecency, Owned, CleanOnDisk, Views;
      hashTable := hashTable[blocks[i].Key() := i];
      AddToLru(i);
      InsertKeeps(old(blocks), old(hashTable), old(lruHead), old(lruTail), blocksUsed, old(order), dirtyBlocks,
                  dirtyQueue,
                  now, i, blocks, lruHead, lruTail, order);
      InsertView(old(blocks), blocks, data, old(hashTable), disk, owner, old(order), i);
    }

    // ---- Dirty blocks ----

    /** A block whose data was changed becomes dirty; write-through mode writes it back at once. */
    method MarkDirty(i: nat)
      requires Valid() && CoherentBut(i) && i in order && Mine(owner, blocks[i].Key())
      modifies this`blocks, this`dirtyBlocks, this`dirtyQueue, this`disk, this`invalidationQueue, this`now
      ensures Valid() && Coherent() && Store() == old(Store())
      ensures blocks[i].IsDirty() <==> old(blocks)[i].IsDirty() || coherencyMode != WriteThrough
      ensures Exhausted() == old(Exhausted()) && (old(Unpinned()) ==> Unpinned())
    {
      hide Linked, SlotStates, DirtyTracked, ByRecency, Owned, CleanOnDisk, Views, AllPinned, NonePinned;
      if blocks[i].state != Dirty {
        SetDirty(i);
        if coherencyMode == WriteThrough {
          FlushBlock(i, -1);
        }
      } else {
        HoleMoves(blocks, data, hashTable, disk, owner, i, -1);
      }
    }

    method SetDirty(i: nat)
      requires Valid() && CoherentBut(i) && i in order && !blocks[i].IsDirty() && Mine(owner, blocks[i].Key())
      modifies this`blocks, this`dirtyBlocks, this`dirtyQueue, this`now
      ensures Valid() && Coherent() && blocks == old(blocks)[i := old(blocks)[i].(state := Dirty)]
      ensures Exhausted() == old(Exhausted()) && (old(Unpinned()) ==> Unpinned())
    {
      hide Linked, DirtyTracked, ByRecency, Owned, CleanOnDisk, Views, AllPinned, NonePinned;
      DirtyKeeps(blocks, hashTable, lruHead, lruTail, blocksUsed, order, dirtyBlocks, dirtyQueue, now, i);
      blocks := blocks[i := blocks[i].(state := Dirty)];
      now := now + 1;
      dirtyBlocks := dirtyBlocks + 1;
      dirtyQueue := dirtyQueue + [i];
      FillHole(old(blocks), blocks, data, hashTable, disk, owner, order, i, data[i], i);
      assert data[i := data[i]] == data;
      PinsSame(old(blocks), order, blocks, order);
    }

    // ---- Access to one block ----

    method Lookup(key: Key) returns (r: Option<nat>)
      requires Valid() && Coherent()
      modifies this`blocks, this`lruHead, this`lruTail, this`order, this`now, this`readahead
      ensures Valid() && Coherent()
      ensures r == if key in hashTable then Some(hashTable[key]) else None
      ensures r.Some? ==> Cached(key, r.value) && order == [r.value] + Without(old(order), r.value)
      ensures r.None? ==> order == old(order) && readahead == old(readahead)
      ensures r.Some? ==> readahead == old(readahead)[key.0 := Tracked(old(readahead), key.0).Update(key.1)]
      ensures Exhausted() == old(Exhausted()) && (old(Unpinned()) ==> Unpinned())
    {
      if key in hashTable {
        var i := hashTable[key];
        TouchBlock(i);
        NoteAccess(key);
        return Some(i);
      } else {
        return None;
      }
    }

    /** Update the sequential-access tracking of the file. */
    method NoteAccess(key: Key)
      requires Valid() && Coherent()
      modifies this`now, this`readahead
      ensures Valid() && Coherent()
      ensures readahead == old(readahead)[key.0 := Tracked(old(readahead), key.0).Update(key.1)]
    {
      hide Inv, CleanOnDisk, Owned, Views;
      NowLater(blocks, hashTable, lruHead, lruTail, blocksUsed, order, dirtyBlocks, dirtyQueue, now, now + 1);
      readahead := readahead[key.0 := Tracked(readahead, key.0).Update(key.1)];
      now := now + 1;
    }

    /** Fill a newly placed block from the disk. */
    method LoadBlock(i: nat)
      requires Valid() && CoherentBut(i) && i in order && !blocks[i].IsDirty()
      modifies this`data
      ensures Valid() && Coherent()
      ensures Store() == Shown(old(Store()), owner, blocks[i].Key(), DiskRead(disk, blocks[i].blockNumber))
    {
      var page := DiskRead(disk, blocks[i].blockNumber);
      StoreView(blocks, data, hashTable, disk, owner, order, i, page);
      FillHole(blocks, blocks, data, hashTable, disk, owner, order, i, page, i);
      data := data[i := page];
    }

    /** The slot of a block, read from disk if it was not cached; clients see no difference. */
    method FetchBlock(key: Key) returns (r: Option<nat>)
      requires Valid() && Coherent() && key !in hashTable
      modifies this`blocks, this`dirtyBlocks, this`disk, this`invalidationQueue, this`now,
               this`hashTable, this`lruHead, this`lruTail, this`order, this`blocksUsed, this`data
      ensures Valid() && Coherent() && Store() == old(Store())
      ensures if r.Some? then Cached(key, r.value) else hashTable == old(hashTable)
      ensures EntersOnly(old(hashTable).Keys, hashTable.Keys, key.0)
      ensures old(blocksUsed) < MAX_CACHE_BLOCKS ==> hashTable.Keys == old(hashTable).Keys + {key}
      ensures r.None? <==> old(Exhausted())
      ensures blocksUsed == NextUsed(old(blocksUsed))
      ensures Exhausted() == old(Exhausted()) && (old(Unpinned()) ==> Unpinned())
    {
      hide Inv, Owned, CleanOnDisk;
      r := Allocate(key);
      if r.Some? {
        LoadBlock(r.value);
      }
    }

    method ReadBlock(key: Key) returns (r: Option<nat>)
      requires Valid() && Coherent() && Mine(owner, key)
      modifies this`blocks, this`dirtyBlocks, this`disk, this`invalidationQueue, this`now,
               this`hashTable, this`lruHead, this`lruTail, this`order, this`blocksUsed, this`data, this`readahead
      ensures Valid() && Coherent() && Store() == old(Store())
      ensures r.None? <==> old(Exhausted()) && key !in old(hashTable)
      ensures r.Some? ==> Cached(key, r.value) && data[r.value] == Store()[key.1]
      ensures EntersOnly(old(hashTable).Keys, hashTable.Keys, key.0)
      ensures r.None? || key in old(hashTable) ==> hashTable == old(hashTable) && blocksUsed == old(blocksUsed)
      ensures key !in old(hashTable) ==> blocksUsed == NextUsed(old(blocksUsed))
      ensures Exhausted() == old(Exhausted()) && (old(Unpinned()) ==> Unpinned())
    {
      hide Linked, SlotStates, DirtyTracked, ByRecency, Owned, CleanOnDisk, AllPinned, NonePinned;
      r := Lookup(key);
      if r.None? {
        r := FetchBlock(key);
      }
    }

    /**
     * Write part of one block. On a hit the other bytes stay; on a miss the block is not read from
     * disk first, so the other bytes are what the slot happened to hold.
     */
    method WriteBlock(key: Key, offset: nat, bytes: seq<Byte>) returns (r: Option<nat>)
      requires Valid() && Coherent() && Mine(owner, key)
      requires offset + |bytes| <= CACHE_BLOCK_SIZE
      modifies this`blocks, this`dirtyBlocks, this`disk, this`invalidationQueue, this`now,
               this`hashTable, this`lruHead, this`lruTail, this`order, this`blocksUsed, this`data, this`readahead,
               this`dirtyQueue
      ensures Valid() && Coherent()
      ensures r.None? <==> old(Exhausted()) && key !in old(hashTable)
      ensures r.None? ==> Store() == old(Store())
      ensures r.Some? ==>
                && r.value < |old(data)|
                && Store() == WrittenStore(old(Store()), old(data), key, r.value, key in old(hashTable), offset, bytes)
      ensures r.None? || key in old(hashTable) ==> hashTable == old(hashTable) && blocksUsed == old(blocksUsed)
      ensures key !in old(hashTable) ==> blocksUsed == NextUsed(old(blocksUsed))
      ensures old(blocksUsed) < MAX_CACHE_BLOCKS ==> hashTable.Keys == old(hashTable).Keys + {key}
      ensures Exhausted() == old(Exhausted()) && (old(Unpinned()) ==> Unpinned())
    {
      hide Inv, Owned, CleanOnDisk, Views, AllPinned, NonePinned;
      r := BlockForWrite(key);
      if r.Some? {
        PutBytes(r.value, offset, bytes);
        MarkDirty(r.value);
      }
    }

    /** The slot of a block, taken without reading from disk if it was not cached. */
    method BlockForWrite(key: Key) returns (r: Option<nat>)
      requires Valid() && Coherent()
      modifies this`blocks, this`dirtyBlocks, this`disk, this`invalidationQueue, this`now,
               this`hashTable, this`lruHead, this`lruTail, this`order, this`blocksUsed, this`readahead
      ensures Valid()
      ensures r.None? <==> old(Exhausted()) && key !in old(hashTable)
      ensures r.None? ==> Coherent() && Store() == old(Store())
      ensures r.Some? ==> Cached(key, r.value) && CoherentBut(r.value)
      ensures r.Some? && key in old(hashTable) ==> Coherent() && Store() == old(Store())
      ensures r.Some? && key in old(hashTable) && Mine(owner, key) ==> data[r.value] == old(Store())[key.1]
      ensures r.Some? && key !in old(hashTable) ==>
                Store() == Shown(old(Store()), owner, key, data[r.value]) && !blocks[r.value].IsDirty()
      ensures r.Some? && key !in old(hashTable) && Mine(owner, key) ==> old(Store())[key.1] == DiskRead(disk, key.1)
      ensures r.None? || key in old(hashTable) ==> hashTable == old(hashTable) && blocksUsed == old(blocksUsed)
      ensures key !in old(hashTable) ==> blocksUsed == NextUsed(old(blocksUsed))
      ensures old(blocksUsed) < MAX_CACHE_BLOCKS ==> hashTable.Keys == old(hashTable).Keys + {key}
      ensures Exhausted() == old(Exhausted()) && (old(Unpinned()) ==> Unpinned())
    {
      hide Linked, SlotStates, DirtyTracked, ByRecency, Owned, CleanOnDisk, AllPinned, NonePinned;
      r := Lookup(key);
      if r.None? {
        r := Allocate(key);
      } else {
        HoleMoves(blocks, data, hashTable, disk, owner, -1, r.value);
      }
    }

    method PutBytes(i: nat, offset: nat, bytes: seq<Byte>)
      requires Valid() && CoherentBut(i) && i in order && offset + |bytes| <= CACHE_BLOCK_SIZE
      modifies this`data
      ensures Valid() && CoherentBut(i) && data == old(data)[i := Splice(old(data)[i], offset, bytes)]
      ensures Store() == Shown(old(Store()), owner, blocks[i].Key(), Splice(old(data)[i], offset, bytes))
    {
      var page := Splice(data[i], offset, bytes);
      StoreView(blocks, data, hashTable, disk, owner, order, i, page);
      data := data[i := page];
    }

    // ---- Pins ----

    /**
     * Pin a block. On a hit nothing else changes. On a miss the block is not read from disk, so it shows what the
     * slot happened to hold, as clean data: the cache stays coherent exactly if that is what the store held.
     */
    method PinBlock(key: Key) returns (r: Option<nat>)
      requires Valid() && Coherent()
      modifies this`blocks, this`dirtyBlocks, this`disk, this`invalidationQueue, this`now,
               this`hashTable, this`lruHead, this`lruTail, this`order, this`blocksUsed, this`readahead
      ensures Valid()
      ensures r.None? <==> old(Exhausted()) && key !in old(hashTable)
      ensures r.Some? ==> Cached(key, r.value) && blocks[r.value].refCount > 0
      ensures r.None? || key in old(hashTable) ==> Coherent() && Store() == old(Store())
      ensures r.Some? && key !in old(hashTable) ==> Store() == Shown(old(Store()), owner, key, data[r.value])
      ensures r.Some? && key !in old(hashTable) && Mine(owner, key) ==>
                (Coherent() <==> data[r.value] == old(Store())[key.1])
    {
      hide Linked, SlotStates, DirtyTracked, ByRecency, Owned, CleanOnDisk, Views, Mine, Shown, AllPinned, NonePinned;
      r := BlockForWrite(key);
      if r.Some? {
        var i := r.value;
        if Mine(owner, key) && !blocks[i].IsDirty() {
          HoleFilled(blocks, data, hashTable, disk, owner, order, i);
        }
        SetPins(i, blocks[i].refCount + 1);
      }
    }

    method SetPins(i: nat, count: nat)
      requires Valid() && i < |blocks|
      modifies this`blocks
      ensures Valid() && blocks == old(blocks)[i := old(blocks)[i].(refCount := count)]
      ensures forall hole :: CoherentBut(hole) <==> old(CoherentBut(hole))
    {
      hide Linked, Indexed, SlotStates, DirtyTracked, ByRecency, Owned, CleanOnDisk;
      PinKeeps(blocks, hashTable, lruHead, lruTail, blocksUsed, order, dirtyBlocks, dirtyQueue, now, i, count);
      blocks := blocks[i := blocks[i].(refCount := count)];
      PinView(old(blocks), blocks, data, hashTable, disk, owner);
    }

    /** Give up one pin of a slot, if it has any; slots out of range are ignored. */
    method UnpinBlock(i: nat)
      requires Valid() && Coherent()
      modifies this`blocks
      ensures Valid() && Coherent() && Store() == old(Store())
      ensures blocks == if i < |old(blocks)| && old(blocks)[i].refCount > 0
                        then old(blocks)[i := old(blocks)[i].(refCount := old(blocks)[i].refCount - 1)] else old(blocks)
    {
      hide Inv, Owned, CleanOnDisk;
      if i < |blocks| && blocks[i].refCount > 0 {
        SetPins(i, blocks[i].refCount - 1);
      }
    }

    // ---- Read-ahead, write-back, invalidation ----

    /** Fetch the blocks a sequential reader is expected to want; clients see no difference. */
    method Readahead(file: nat)
      requires Valid() && Coherent()
      modifies this`blocks, this`dirtyBlocks, this`disk, this`invalidationQueue, this`now,
               this`hashTable, this`lruHead, this`lruTail, this`order, this`blocksUsed, this`data
      ensures Valid() && Coherent() && Store() == old(Store())
      ensures old(Exhausted()) ==> hashTable == old(hashTable)
      ensures
        && !old(Exhausted())
        && file in readahead && readahead[file].ShouldReadAhead() && readahead[file].windowSize > 0 ==>
          (file, readahead[file].predictedNext + readahead[file].windowSize - 1) in hashTable
      ensures
        && file in readahead && readahead[file].ShouldReadAhead()
        && old(blocksUsed) + readahead[file].windowSize <= MAX_CACHE_BLOCKS ==>
          AllAhead(hashTable.Keys, file, readahead[file].predictedNext, readahead[file].windowSize)
      ensures old(blocksUsed) <= blocksUsed && EntersOnly(old(hashTable).Keys, hashTable.Keys, file)
      ensures Exhausted() == old(Exhausted()) && (old(Unpinned()) ==> Unpinned())
    {
      hide Inv, Owned, CleanOnDisk, Views, AllPinned, NonePinned;
      if file !in readahead {
        return;
      }
      var state := readahead[file];
      if state.ShouldReadAhead() {
        for i := 0 to state.windowSize
          invariant Valid() && Coherent() && Store() == old(Store())
          invariant Exhausted() == old(Exhausted()) && (old(Unpinned()) ==> Unpinned()) && old(blocksUsed) <= blocksUsed
          invariant EntersOnly(old(hashTable).Keys, hashTable.Keys, file)
          invariant if Exhausted() then hashTable == old(hashTable)
                    else i > 0 ==> (file, state.predictedNext + i - 1) in hashTable
          invariant old(blocksUsed) + state.windowSize <= MAX_CACHE_BLOCKS ==>
                      blocksUsed <= old(blocksUsed) + i && AllAhead(hashTable.Keys, file, state.predictedNext, i)
        {
          var key := (file, state.predictedNext + i);
          if key !in hashTable {
            var r := FetchBlock(key);
          }
        }
      }
    }

    /** Periodic write-back, when due, of some of the queued blocks; under hard pressure nothing stays dirty. */
    method WritebackDirty(due: bool, pressure: Pressure) returns (flushed: nat)
      requires Valid() && Coherent()
      modifies this`blocks, this`dirtyBlocks, this`dirtyQueue, this`disk, this`invalidationQueue, this`now
      ensures Valid() && Coherent() && Store() == old(Store())
      ensures !due ==> flushed == 0 && dirtyQueue == old(dirtyQueue) && blocks == old(blocks) && disk == old(disk)
      ensures dirtyBlocks == old(dirtyBlocks) - flushed
      ensures due ==> dirtyQueue == old(dirtyQueue)[Quota(pressure, |old(dirtyQueue)|)..]
      ensures due ==> AllClean(blocks, old(dirtyQueue)[..Quota(pressure, |old(dirtyQueue)|)])
      ensures due && pressure == Hard ==> NoneDirty() && dirtyBlocks == 0 && dirtyQueue == []
      ensures due && pressure == Soft ==> |dirtyQueue| == |old(dirtyQueue)| - |old(dirtyQueue)| / 2
      ensures due && pressure == Few ==> |dirtyQueue| == if |old(dirtyQueue)| < 16 then 0 else |old(dirtyQueue)| - 16
      ensures Exhausted() == old(Exhausted()) && (old(Unpinned()) ==> Unpinned())
    {
      hide Inv, Owned, CleanOnDisk, Views, AllClean, AllPinned, NonePinned;
      if !due {
        return 0;
      }
      var target := Quota(pressure, |dirtyQueue|);
      flushed := 0;
      CleanNone(blocks, dirtyQueue[..0]);
      for n := 0 to target
        invariant Valid() && Coherent() && Store() == old(Store())
        invariant dirtyQueue == old(dirtyQueue)[n..] && dirtyBlocks == old(dirtyBlocks) - flushed
        invariant AllClean(blocks, old(dirtyQueue)[..n])
        invariant Exhausted() == old(Exhausted()) && (old(Unpinned()) ==> Unpinned())
      {
        ghost var before := blocks;
        var done := WritebackOne();
        CleanMore(before, blocks, old(dirtyQueue), n);
        flushed := flushed + done;
      }
      if pressure == Hard {
        NothingQueued(blocks, hashTable, lruHead, lruTail, blocksUsed, order, dirtyBlocks, dirtyQueue, now);
      }
    }

    /** Take one block off the queue and write it back if it is still dirty. */
    method WritebackOne() returns (flushed: nat)
      requires Valid() && Coherent() && dirtyQueue != []
      modifies this`blocks, this`dirtyBlocks, this`dirtyQueue, this`disk, this`invalidationQueue, this`now
      ensures Valid() && Coherent() && Store() == old(Store())
      ensures dirtyQueue == old(dirtyQueue)[1..] && dirtyBlocks == old(dirtyBlocks) - flushed
      ensures CleanedAt(old(blocks), blocks, old(dirtyQueue)[0])
      ensures Exhausted() == old(Exhausted()) && (old(Unpinned()) ==> Unpinned())
    {
      hide Linked, Indexed, SlotStates, ByRecency, Owned, CleanOnDisk, Views, AllPinned, NonePinned;
      var i := dirtyQueue[0];
      assert i in dirtyQueue;
      flushed := 0;
      if blocks[i].IsDirty() {
        FlushBlock(i, -1);
        flushed := 1;
      }
      PopKeeps(blocks, dirtyBlocks, dirtyQueue);
      dirtyQueue := dirtyQueue[1..];
    }

    method FlushAll()
      requires Valid() && Coherent()
      modifies this`blocks, this`dirtyBlocks, this`dirtyQueue, this`disk, this`invalidationQueue, this`now
      ensures Valid() && Coherent() && Store() == old(Store())
      ensures NoneDirty() && dirtyBlocks == 0 && dirtyQueue == []
      ensures forall n: nat :: DiskRead(disk, n) == Store()[n]
      ensures Exhausted() == old(Exhausted()) && (old(Unpinned()) ==> Unpinned())
    {
      hide Linked, Indexed, ByRecency, Owned, CleanOnDisk, Views, AllPinned, NonePinned;
      for i := 0 to blocksUsed
        invariant Valid() && Coherent() && Store() == old(Store())
        invariant forall x :: 0 <= x < i ==> !blocks[x].IsDirty()
        invariant Exhausted() == old(Exhausted()) && (old(Unpinned()) ==> Unpinned())
      {
        if blocks[i].IsDirty() {
          FlushBlock(i, -1);
        }
      }
      CleanStoreOnDisk(blocks, data, hashTable, disk, owner);
      assert DirtySet(blocks) == {};
      dirtyQueue := [];
    }

    /** Drop every cached block of a file, writing dirty ones back; their slots stay handed out. */
    method InvalidateFile(file: nat)
      requires Valid() && Coherent()
      modifies this`blocks, this`dirtyBlocks, this`disk, this`invalidationQueue, this`now,
               this`hashTable, this`lruHead, this`lruTail, this`order, this`readahead
      ensures Valid() && Coherent() && Store() == old(Store())
      ensures hashTable.Keys == set key | key in old(hashTable) && key.0 != file
      ensures (old(Exhausted()) ==> Exhausted()) && (old(Unpinned()) ==> Unpinned())
    {
      hide Inv, Owned, CleanOnDisk, Views, Splits, AllPinned, NonePinned;
      var pending := set key | key in hashTable && key.0 == file;
      ghost var others := set key | key in hashTable && key.0 != file;
      SplitsStart(hashTable.Keys, others, pending, file);
      while pending != {}
        invariant Valid() && Coherent() && Store() == old(Store())
        invariant Splits(hashTable.Keys, others, pending)
        invariant (old(Exhausted()) ==> Exhausted()) && (old(Unpinned()) ==> Unpinned())
        decreases |pending|
      {
        var key :| key in pending;
        SplitsStep(hashTable.Keys, others, pending, key);
        DropKey(key);
        pending := pending - {key};
      }
      SplitsDone(hashTable.Keys, others);
      readahead := readahead - {file};
    }

    /** Drop the block that the first notification names. */
    method TakeNotification()
      requires Valid() && Coherent() && invalidationQueue != []
      modifies this`blocks, this`dirtyBlocks, this`disk, this`invalidationQueue, this`now,
               this`hashTable, this`lruHead, this`lruTail, this`order
      ensures Valid() && Coherent() && Store() == old(Store())
      ensures hashTable.Keys == old(hashTable).Keys - {old(invalidationQueue)[0]}
      ensures invalidationQueue == old(invalidationQueue)[1..]
           || invalidationQueue == old(invalidationQueue)[1..] + [old(invalidationQueue)[0]]
      ensures |hashTable| < |old(hashTable)|
           || (hashTable == old(hashTable) && |invalidationQueue| < |old(invalidationQueue)|)
      ensures (old(Exhausted()) ==> Exhausted()) && (old(Unpinned()) ==> Unpinned())
    {
      hide Inv, Owned, CleanOnDisk, Views, AllPinned, NonePinned;
      var key := invalidationQueue[0];
      invalidationQueue := invalidationQueue[1..];
      if key in hashTable {
        DropKey(key);
      }
    }

    /**
     * Drop the blocks that notifications name. Writing a dirty one back may queue a new notification,
     * yet the loop ends: each round shrinks the table or leaves it and shortens the queue.
     */
    method ProcessInvalidations()
      requires Valid() && Coherent()
      modifies this`blocks, this`dirtyBlocks, this`disk, this`invalidationQueue, this`now,
               this`hashTable, this`lruHead, this`lruTail, this`order
      ensures Valid() && Coherent() && Store() == old(Store())
      ensures invalidationQueue == []
      ensures hashTable.Keys == old(hashTable).Keys - Named(old(invalidationQueue))
      ensures (old(Exhausted()) ==> Exhausted()) && (old(Unpinned()) ==> Unpinned())
    {
      hide Inv, Owned, CleanOnDisk, Views, AllPinned, NonePinned, Pending, Named;
      ghost var notices, taken := invalidationQueue, 0;
      PendingStart(invalidationQueue, hashTable.Keys);
      while invalidationQueue != []
        invariant Valid() && Coherent() && Store() == old(Store())
        invariant Pending(notices, taken, invalidationQueue, old(hashTable).Keys, hashTable.Keys)
        invariant Named(notices) == Named(old(invalidationQueue))
        invariant (old(Exhausted()) ==> Exhausted()) && (old(Unpinned()) ==> Unpinned())
        decreases |hashTable|, |invalidationQueue|
      {
        ghost var queue, keys := invalidationQueue, hashTable.Keys;
        TakeNotification();
        notices := PendingStep(notices, taken, queue, old(hashTable).Keys, keys, invalidationQueue, hashTable.Keys);
        taken := taken + 1;
      }
      PendingDone(notices, taken, old(hashTable).Keys, hashTable.Keys);
    }

    method SetCoherencyMode(mode: CoherencyMode)
      requires Valid() && Coherent()
      modifies this`coherencyMode
      ensures Valid() && Coherent() && Store() == old(Store()) && coherencyMode == mode
    {
      coherencyMode := mode;
    }

    // ---- Reading and writing byte ranges ----

    /** Read what one block holds of the range, after its first `done` bytes. */
    method ReadPiece(file: nat, offset: nat, buffer: array<Byte>, done: nat) returns (r: Option<nat>)
      requires Valid() && Coherent() && done < buffer.Length && Mine(owner, (file, (offset + done) / CACHE_BLOCK_SIZE))
      requires ReadsAs(Store(), offset, buffer[..done])
      modifies this`blocks, this`dirtyBlocks, this`disk, this`invalidationQueue, this`now,
               this`hashTable, this`lruHead, this`lruTail, this`order, this`blocksUsed, this`data, this`readahead,
               buffer
      ensures Valid() && Coherent() && Store() == old(Store())
      ensures r.None? <==> old(Exhausted()) && (file, (offset + done) / CACHE_BLOCK_SIZE) !in old(hashTable)
      ensures r.Some? ==> r.value == Piece(offset + done, buffer.Length - done)
      ensures r.Some? ==> ReadsAs(Store(), offset, buffer[..done + r.value])
      ensures r.None? || (file, (offset + done) / CACHE_BLOCK_SIZE) in old(hashTable) ==>
                hashTable == old(hashTable) && blocksUsed == old(blocksUsed)
      ensures (file, (offset + done) / CACHE_BLOCK_SIZE) !in old(hashTable) ==> blocksUsed == NextUsed(old(blocksUsed))
      ensures EntersOnly(old(hashTable).Keys, hashTable.Keys, file)
      ensures Exhausted() == old(Exhausted()) && (old(Unpinned()) ==> Unpinned())
    {
      hide Inv, Owned, CleanOnDisk, Views, ReadsAs, Mine, EntersOnly, AllPinned, NonePinned;
      var n, o := (offset + done) / CACHE_BLOCK_SIZE, (offset + done) % CACHE_BLOCK_SIZE;
      var count := Piece(offset + done, buffer.Length - done);
      var slot := ReadBlock((file, n));
      if slot.None? {
        return None;
      }
      CopyOut(data[slot.value].bytes, o, count, buffer, done);
      assert buffer[..done] == old(buffer[..done]);
      ReadsMore(Store(), offset, buffer[..done], n, o, count);
      assert buffer[..done + count] == buffer[..done] + Store()[n].bytes[o..o + count];
      return Some(count);
    }

    /**
     * Read a byte range of a file into the buffer: it holds what the store holds there, unless no slot can be
     * had for a block of the range that is not cached.
     */
    method CcRead(file: nat, offset: nat, buffer: array<Byte>) returns (r: Option<nat>)
      requires Valid() && Coherent() && OwnsRange(owner, file, offset, buffer.Length)
      modifies this`blocks, this`dirtyBlocks, this`disk, this`invalidationQueue, this`now,
               this`hashTable, this`lruHead, this`lruTail, this`order, this`blocksUsed, this`data, this`readahead,
               buffer
      ensures Valid() && Coherent() && Store() == old(Store())
      ensures r.None? <==> old(Exhausted()) && !AllCached(old(hashTable).Keys, file, offset, buffer.Length)
      ensures r.Some? ==> r.value == buffer.Length && ReadsAs(old(Store()), offset, buffer[..])
      ensures old(Exhausted()) ==> hashTable == old(hashTable)
      ensures old(blocksUsed) <= blocksUsed && EntersOnly(old(hashTable).Keys, hashTable.Keys, file)
      ensures old(blocksUsed) < MAX_CACHE_BLOCKS && !AllCached(old(hashTable).Keys, file, offset, buffer.Length) ==>
                old(blocksUsed) < blocksUsed
      ensures Exhausted() == old(Exhausted()) && (old(Unpinned()) ==> Unpinned())
    {
      hide Inv, Owned, CleanOnDisk, Views, ReadsAs, Mine, OwnsRange, AllCached, EntersOnly, AllPinned, NonePinned;
      var done := 0;
      ReadsNothing(Store(), offset, buffer[..0]);
      CachedNone(hashTable.Keys, file, offset);
      EntersNothing(hashTable.Keys, file);
      while done < buffer.Length
        invariant done <= buffer.Length && (0 < done < buffer.Length ==> (offset + done) % CACHE_BLOCK_SIZE == 0)
        invariant Valid() && Coherent() && Store() == old(Store())
        invariant ReadsAs(old(Store()), offset, buffer[..done])
        invariant Exhausted() == old(Exhausted()) && (old(Unpinned()) ==> Unpinned()) && old(blocksUsed) <= blocksUsed
        invariant EntersOnly(old(hashTable).Keys, hashTable.Keys, file)
        invariant Exhausted() || blocksUsed == old(blocksUsed) < MAX_CACHE_BLOCKS ==>
                    hashTable == old(hashTable) && AllCached(old(hashTable).Keys, file, offset, done)
      {
        OwnsBlock(owner, file, offset, buffer.Length, done);
        if Exhausted() || blocksUsed == old(blocksUsed) < MAX_CACHE_BLOCKS {
          CachedMore(hashTable.Keys, file, offset, done, Piece(offset + done, buffer.Length - done), buffer.Length);
        }
        ghost var keys := hashTable.Keys;
        var count := ReadPiece(file, offset, buffer, done);
        if count.None? {
          return None;
        }
        EntersTwice(old(hashTable).Keys, keys, hashTable.Keys, file);
        done := done + count.value;
      }
      assert buffer[..done] == buffer[..];
      ghost var keys := hashTable.Keys;
      Readahead(file);
      EntersTwice(old(hashTable).Keys, keys, hashTable.Keys, file);
      return Some(done);
    }

    /**
     * Write a byte range of a file; `written` bytes of it get through, all of them unless no slot can be had for a
     * block of the range that is not cached. They are in the store afterwards and untouched blocks stay. It is a
     * plain write of those bytes when the blocks written in part are cached and the last one is not evicted meanwhile,
     * and always when no slot can be had, because then only cached blocks are written.
     */
    method CcWrite(file: nat, offset: nat, buffer: seq<Byte>) returns (r: Option<nat>, ghost written: nat)
      requires Valid() && Coherent() && OwnsRange(owner, file, offset, |buffer|)
      modifies this`blocks, this`dirtyBlocks, this`disk, this`invalidationQueue, this`now, this`dirtyQueue,
               this`hashTable, this`lruHead, this`lruTail, this`order, this`blocksUsed, this`data, this`readahead
      ensures Valid() && Coherent()
      ensures r.None? <==> old(Exhausted()) && !AllCached(old(hashTable).Keys, file, offset, |buffer|)
      ensures if r.Some? then r.value == written == |buffer|
              else written < |buffer| && StopsAt(old(hashTable).Keys, file, offset, written)
      ensures Patched(old(Store()), Store(), offset, buffer[..written])
      ensures Covers(old(hashTable).Keys, old(blocksUsed), file, offset, |buffer|) ==>
                Wrote(old(Store()), Store(), offset, buffer[..written])
      ensures old(Exhausted()) ==>
                hashTable == old(hashTable) && Wrote(old(Store()), Store(), offset, buffer[..written])
      ensures Exhausted() == old(Exhausted()) && (old(Unpinned()) ==> Unpinned())
    {
      hide Inv, Owned, CleanOnDisk, Views, Mine, OwnsRange, Wrote, Patched, WrittenStore, Covers, Fits, AllCached;
      hide AllPinned, NonePinned;
      var done := 0;
      ghost var covered := Exhausted() || Covers(hashTable.Keys, blocksUsed, file, offset, |buffer|);
      WroteNothing(Store(), offset, buffer[..0]);
      CachedNone(hashTable.Keys, file, offset);
      FitsNone(hashTable.Keys, blocksUsed, file, offset, |buffer|);
      while done < |buffer|
        invariant done <= |buffer| && (0 < done < |buffer| ==> (offset + done) % CACHE_BLOCK_SIZE == 0)
        invariant Valid() && Coherent() && (done == 0 ==> hashTable == old(hashTable))
        invariant Patched(old(Store()), Store(), offset, buffer[..done])
        invariant covered ==> Wrote(old(Store()), Store(), offset, buffer[..done])
        invariant Exhausted() == old(Exhausted()) && (old(Unpinned()) ==> Unpinned())
        invariant Exhausted() ==> hashTable == old(hashTable) && AllCached(old(hashTable).Keys, file, offset, done)
        invariant Fits(old(hashTable).Keys, old(blocksUsed), hashTable.Keys, blocksUsed, file, offset, |buffer|, done)
      {
        ghost var before, slots, keys, used := Store(), data, hashTable.Keys, blocksUsed;
        var n, o := (offset + done) / CACHE_BLOCK_SIZE, (offset + done) % CACHE_BLOCK_SIZE;
        var count := Piece(offset + done, |buffer| - done);
        ghost var hit := (file, n) in hashTable;
        OwnsBlock(owner, file, offset, |buffer|, done);
        if Exhausted() {
          CachedMore(hashTable.Keys, file, offset, done, count, |buffer|);
        }
        var slot := WriteBlock((file, n), o, buffer[done..done + count]);
        if slot.None? {
          return None, done;
        }
        if covered && !Exhausted() {
          WholeOrHit(old(hashTable).Keys, old(blocksUsed), keys, used, file, offset, |buffer|, done);
        }
        WritesMore(old(Store()), before, slots, (file, n), slot.value, hit, o, offset, buffer, done, count, Store(),
                   covered);
        FitsMore(old(hashTable).Keys, old(blocksUsed), keys, used, file, offset, |buffer|, done, count,
                 hashTable.Keys, blocksUsed);
        done := done + count;
      }
      assert buffer[..done] == buffer;
      return Some(done), done;
    }
  }
}
