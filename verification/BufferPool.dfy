/** The buffer pool of `fs/cache_manager.rs`. */
module BufferPool {
  import opened ByteRanges
  import opened Bytes
  import opened Lists
  import opened Wrappers

  const BUFFER_SIZE: nat := BLOCK_SIZE
  const MAX_BUFFERS: nat := 8192

  datatype BufferState = Free | Clean | Dirty | Locked | IoInProgress

  /** File and offset under which a buffer is mapped. */
  type Key = (nat, nat)

  type Page = p: seq<Byte> | |p| == 4096 witness Repeat(0, 4096)

  datatype Buffer = Buffer(fileId: nat, offset: nat, state: BufferState, refCount: nat)
  {
    function Key(): Key {
      (fileId, offset)
    }
  }

  type Buffers = seq<Buffer>

  // ---- The invariant ----

  /** Free buffers are listed once; the others are mapped under their own key. */
  ghost predicate Partitioned(buffers: Buffers, free: seq<nat>, table: map<Key, nat>) {
    && Distinct(free)
    && (forall id: nat :: id in free <==> id < |buffers| && buffers[id].state == Free)
    && (forall key :: key in table ==>
          table[key] < |buffers| && buffers[table[key]].state != Free && buffers[table[key]].Key() == key)
    && (forall id: nat :: id < |buffers| && buffers[id].state != Free ==>
          buffers[id].Key() in table && table[buffers[id].Key()] == id)
  }

  /**
   * The dirty list holds exactly the dirty buffers, once each; no buffer is locked or in transfer between operations.
   */
  ghost predicate DirtyListed(buffers: Buffers, dirty: seq<nat>) {
    && Distinct(dirty)
    && (forall id: nat :: id in dirty <==> id < |buffers| && buffers[id].state == Dirty)
    && (forall id: nat :: id < |buffers| ==>
          buffers[id].state == Free || buffers[id].state == Clean || buffers[id].state == Dirty)
  }

  /** The buffer for a key: its own, or else the next free one. */
  function Slot(table: map<Key, nat>, free: seq<nat>, key: Key): nat {
    if key in table then table[key] else if free != [] then free[0] else 0
  }

  /** Giving up a reference frees the buffer: it is clean and there is no other reference. */
  ghost predicate Frees(buffers: Buffers, id: nat) {
    id < |buffers| && buffers[id].refCount <= 1 && buffers[id].state == Clean
  }

  /** One reference less, and the buffer freed if it was the last one of a clean buffer. */
  ghost predicate Released(buffers: Buffers, table: map<Key, nat>, id: nat, buffers': Buffers, table': map<Key, nat>)
    requires id < |buffers|
  {
    var b := buffers[id];
    if Frees(buffers, id) then buffers' == buffers[id := Buffer(0, 0, Free, 0)] && table' == table - {b.Key()}
    else buffers' == buffers[id := b.(refCount := if b.refCount > 0 then b.refCount - 1 else 0)] && table' == table
  }

  lemma {:induction false} UpTo(n: nat, lo: nat, list: seq<nat>)
    requires lo <= n && |list| == n - lo && forall i :: 0 <= i < |list| ==> list[i] == lo + i
    ensures Distinct(list) && forall id: nat :: id in list <==> lo <= id < n
    decreases n - lo
  {
    if lo < n {
      hide Distinct;
      UpTo(n, lo + 1, list[1..]);
      assert list == [lo] + list[1..];
      DistinctFirst(list);
    }
  }

  lemma SameStates(buffers: Buffers, free: seq<nat>, table: map<Key, nat>, dirty: seq<nat>, id: nat, refCount: nat)
    requires Partitioned(buffers, free, table) && DirtyListed(buffers, dirty) && id < |buffers|
    ensures var buffers' := buffers[id := buffers[id].(refCount := refCount)];
            Partitioned(buffers', free, table) && DirtyListed(buffers', dirty)
  {
  }

  lemma AllocateKeeps(buffers: Buffers, free: seq<nat>, table: map<Key, nat>, dirty: seq<nat>, key: Key)
    requires Partitioned(buffers, free, table) && DirtyListed(buffers, dirty) && free != [] && key !in table
    ensures free[0] < |buffers|
    ensures var buffers' := buffers[free[0] := Buffer(key.0, key.1, Clean, 1)];
            Partitioned(buffers', free[1..], table[key := free[0]]) && DirtyListed(buffers', dirty)
  {
    hide Distinct;
    DistinctFirst(free);
    assert forall id :: id in free <==> id == free[0] || id in free[1..];
  }

  lemma FreeKeeps(buffers: Buffers, free: seq<nat>, table: map<Key, nat>, dirty: seq<nat>, id: nat)
    requires Partitioned(buffers, free, table) && DirtyListed(buffers, dirty) && id < |buffers|
          && buffers[id].state == Clean
    ensures var buffers' := buffers[id := Buffer(0, 0, Free, buffers[id].refCount)];
            Partitioned(buffers', free + [id], table - {buffers[id].Key()}) && DirtyListed(buffers', dirty)
  {
    hide Distinct;
    PushDistinct(free, id);
  }

  lemma MarkKeeps(buffers: Buffers, free: seq<nat>, table: map<Key, nat>, dirty: seq<nat>, id: nat)
    requires Partitioned(buffers, free, table) && DirtyListed(buffers, dirty) && id < |buffers|
          && buffers[id].state != Dirty
    ensures var buffers' := buffers[id := buffers[id].(state := Dirty)];
            && DirtyListed(buffers', dirty + [id])
            && (Partitioned(buffers', free, table) <==> buffers[id].state != Free)
  {
    hide Distinct;
    PushDistinct(dirty, id);
    if buffers[id].state == Free {
      assert id in free;
    }
  }

  lemma ClearKeeps(buffers: Buffers, free: seq<nat>, table: map<Key, nat>, dirty: seq<nat>, id: nat)
    requires id < |buffers| && buffers[id].state != Free
    requires Partitioned(buffers, free, table) && DirtyListed(buffers[id := buffers[id].(state := Dirty)], dirty)
    ensures var buffers' := buffers[id := buffers[id].(state := Clean)];
            Partitioned(buffers', free, table) && DirtyListed(buffers', Retain(dirty, id))
  {
    hide Distinct, Retain;
    RetainMembers(dirty, id);
    RetainDistinct(dirty, id);
    var before, after := buffers[id := buffers[id].(state := Dirty)], buffers[id := buffers[id].(state := Clean)];
    forall x: nat
      ensures x in Retain(dirty, id) <==> x < |after| && after[x].state == Dirty
      ensures x < |after| ==> after[x].state == Free || after[x].state == Clean || after[x].state == Dirty
    {
      assert x < |buffers| && x != id ==> before[x] == after[x];
    }
  }

  class BufferPool {
    var buffers: Buffers
    var freeList: seq<nat>
    var dirtyList: seq<nat>
    var bufferMap: map<Key, nat>
    var data: seq<Page>

    ghost predicate Valid()
      reads this
    {
      && |buffers| == |data| == MAX_BUFFERS
      && Partitioned(buffers, freeList, bufferMap)
      && DirtyListed(buffers, dirtyList)
    }

    constructor ()
      ensures Valid() && bufferMap == map[] && dirtyList == [] && |freeList| == MAX_BUFFERS
      ensures forall id :: 0 <= id < |buffers| ==> buffers[id].state == Free
    {
      buffers := seq(MAX_BUFFERS, _ => Buffer(0, 0, Free, 0));
      freeList := seq(MAX_BUFFERS, i => i);
      dirtyList, bufferMap := [], map[];
      data := seq(MAX_BUFFERS, _ => Repeat(0, BUFFER_SIZE));
      new;
      UpTo(MAX_BUFFERS, 0, freeList);
    }

    /** The buffer for a key, taken from the free list if there is none yet; only an exhausted pool refuses. */
    method Allocate(key: Key) returns (r: Option<nat>)
      requires Valid()
      modifies this`buffers, this`freeList, this`bufferMap
      ensures Valid() && r.None? == (key !in old(bufferMap) && old(freeList) == [])
      ensures r.None? ==> unchanged(this)
      ensures r.Some? ==> r.value == Slot(old(bufferMap), old(freeList), key) < |old(buffers)|
      ensures r.Some? ==> bufferMap == old(bufferMap)[key := r.value]
      ensures r.Some? && key in old(bufferMap) ==>
                var b := old(buffers)[r.value];
                buffers == old(buffers)[r.value := b.(refCount := b.refCount + 1)]
      ensures r.Some? && key !in old(bufferMap) ==> buffers == old(buffers)[r.value := Buffer(key.0, key.1, Clean, 1)]
      ensures freeList == if r.None? || key in old(bufferMap) then old(freeList) else old(freeList)[1..]
    {
      hide Distinct;
      if key in bufferMap {
        var id := bufferMap[key];
        SameStates(buffers, freeList, bufferMap, dirtyList, id, buffers[id].refCount + 1);
        buffers := buffers[id := buffers[id].(refCount := buffers[id].refCount + 1)];
        return Some(id);
      }
      if freeList == [] {
        return None;
      }
      var id := freeList[0];
      assert id in freeList;
      AllocateKeeps(buffers, freeList, bufferMap, dirtyList, key);
      freeList := freeList[1..];
      buffers := buffers[id := Buffer(key.0, key.1, Clean, 1)];
      bufferMap := bufferMap[key := id];
      return Some(id);
    }

    /** Give up one reference; a clean buffer without references goes back to the free list. */
    method Release(id: nat) returns (ok: bool)
      requires Valid()
      modifies this`buffers, this`freeList, this`bufferMap
      ensures Valid() && ok == (id < |buffers|)
      ensures !ok ==> unchanged(this)
      ensures ok ==> Released(old(buffers), old(bufferMap), id, buffers, bufferMap)
      ensures freeList == if ok && Frees(old(buffers), id) then old(freeList) + [id] else old(freeList)
    {
      hide Partitioned, DirtyListed;
      if id >= |buffers| {
        return false;
      }
      var count := buffers[id].refCount;
      if count > 0 {
        SameStates(buffers, freeList, bufferMap, dirtyList, id, count - 1);
        buffers := buffers[id := buffers[id].(refCount := count - 1)];
      }
      if buffers[id].refCount == 0 && buffers[id].state == Clean {
        FreeBuffer(id);
      }
      return true;
    }

    method FreeBuffer(id: nat)
      requires Valid() && id < |buffers| && buffers[id].state == Clean
      modifies this`buffers, this`freeList, this`bufferMap
      ensures Valid() && bufferMap == old(bufferMap) - {old(buffers)[id].Key()} && freeList == old(freeList) + [id]
      ensures buffers == old(buffers)[id := Buffer(0, 0, Free, old(buffers)[id].refCount)]
    {
      hide Distinct;
      FreeKeeps(buffers, freeList, bufferMap, dirtyList, id);
      bufferMap := bufferMap - {buffers[id].Key()};
      buffers := buffers[id := Buffer(0, 0, Free, buffers[id].refCount)];
      freeList := freeList + [id];
    }

    /** Marking keeps the pool in order exactly if the buffer is not a free one. */
    method MarkDirty(id: nat)
      requires Valid()
      modifies this`buffers, this`dirtyList
      ensures Valid() <==> id >= |old(buffers)| || old(buffers)[id].state != Free
      ensures id >= |old(buffers)| || old(buffers)[id].state == Dirty ==> unchanged(this)
      ensures id < |old(buffers)| && old(buffers)[id].state != Dirty ==>
                buffers == old(buffers)[id := old(buffers)[id].(state := Dirty)] && dirtyList == old(dirtyList) + [id]
    {
      hide Distinct;
      if id >= |buffers| {
        return;
      }
      if buffers[id].state != Dirty {
        MarkKeeps(buffers, freeList, bufferMap, dirtyList, id);
        buffers := buffers[id := buffers[id].(state := Dirty)];
        dirtyList := dirtyList + [id];
      }
    }

    /** The pool is in order once buffer `id`, which is still listed as dirty, counts as dirty. */
    ghost predicate Transferring(id: nat)
      reads this
    {
      && |buffers| == |data| == MAX_BUFFERS && id < |buffers| && buffers[id].state != Free
      && Partitioned(buffers, freeList, bufferMap)
      && DirtyListed(buffers[id := buffers[id].(state := Dirty)], dirtyList)
    }

    method ClearDirty(id: nat)
      modifies this`buffers, this`dirtyList
      ensures buffers == if id < |old(buffers)| then old(buffers)[id := old(buffers)[id].(state := Clean)]
                    else old(buffers)
      ensures dirtyList == Retain(old(dirtyList), id)
      ensures old(Transferring(id)) ==> Valid()
    {
      hide Distinct, Retain;
      if Transferring(id) {
        ClearKeeps(buffers, freeList, bufferMap, dirtyList, id);
      }
      if id < |buffers| {
        buffers := buffers[id := buffers[id].(state := Clean)];
      }
      dirtyList := Retain(dirtyList, id);
    }
  }

  /** Marking a free buffer dirty breaks the pool: the buffer is then free, and handed out next, and dirty. */
  method FreeBufferMarked() returns (pool: BufferPool)
    ensures fresh(pool) && !pool.Valid()
    ensures pool.freeList != [] && pool.dirtyList == [pool.freeList[0]]
  {
    pool := new BufferPool();
    assert pool.freeList[0] in pool.freeList;
    pool.MarkDirty(pool.freeList[0]);
  }
}
