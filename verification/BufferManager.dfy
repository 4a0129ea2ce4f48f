/** The cache manager of `fs/cache_manager.rs` on top of its buffer pool. */
module BufferManager {
  import opened Arith
  import opened ByteRanges
  import opened Bytes
  import opened Lists
  import opened BufferPool
  import opened Wrappers

  datatype WriteMode = WriteThrough | WriteBack

  const DIRTY_THRESHOLD: nat := 80

  lemma SameBlock(p: nat, o: nat, k: int, n: nat)
    requires o == p % BUFFER_SIZE && o + n <= BUFFER_SIZE && k < n && p + k >= 0
    ensures k >= 0 ==> (p + k) % BUFFER_SIZE == o + k && p + k - (p + k) % BUFFER_SIZE == p - o
    ensures k < 0 && o == 0 ==> p + k - (p + k) % BUFFER_SIZE != p - o
  {
  }

  /** At least four fifths of the mapped buffers are dirty. */
  predicate FlushDue(dirty: nat, mapped: nat) {
    mapped > 0 && dirty * 100 >= DIRTY_THRESHOLD * mapped
  }

  lemma QuotientReaches(x: nat, n: nat, k: nat)
    requires n > 0
    ensures x / n >= k <==> x >= k * n
  {
    assert x == x / n * n + x % n;
    if x / n >= k {
      MulMonotone(k, x / n, n);
    } else {
      MulMonotone(x / n, k - 1, n);
      Distribute(k, 1, n);
    }
  }

  /** Block `i` after the one that holds the offset. */
  function Ahead(file: nat, offset: nat, i: nat): Key {
    (file, (offset / BUFFER_SIZE + 1) * BUFFER_SIZE + i * BUFFER_SIZE)
  }

  /** The sixteen blocks ahead are those that begin in the sixteen blocks' worth of bytes after the offset. */
  lemma AheadReaches(file: nat, offset: nat, n: nat)
    requires n % BUFFER_SIZE == 0 && offset < n <= offset + 16 * BUFFER_SIZE
    ensures exists i :: 0 <= i < 16 && Ahead(file, offset, i) == (file, n)
  {
    var i := n / BUFFER_SIZE - offset / BUFFER_SIZE - 1;
    assert Ahead(file, offset, i) == (file, n);
  }

  lemma MappedInRange(buffers: Buffers, free: seq<nat>, table: map<Key, nat>)
    requires Partitioned(buffers, free, table)
    ensures forall key :: key in table ==> table[key] < |buffers|
  {
    hide Distinct;
  }

  lemma DirtyInRange(buffers: Buffers, dirty: seq<nat>)
    requires DirtyListed(buffers, dirty)
    ensures forall id :: id in dirty ==> id < |buffers|
  {
  }

  lemma CleanOrDirty(buffers: Buffers, dirty: seq<nat>, id: nat)
    requires DirtyListed(buffers, dirty) && id < |buffers| && buffers[id].state != Free
    ensures buffers[id].state == Clean || buffers[id].state == Dirty
    ensures id in dirty <==> buffers[id].state == Dirty
  {
  }

  function DiskPage(disk: map<nat, Page>, offset: nat): Page {
    if offset in disk then disk[offset] else Repeat(0, BUFFER_SIZE)
  }

  /** What was mapped still is, with the same data. */
  ghost predicate Extends(table: map<Key, nat>, data: seq<Page>, table': map<Key, nat>, data': seq<Page>) {
    && |data'| == |data|
    && forall key :: key in table && table[key] < |data| ==>
         key in table' && table'[key] == table[key] && data'[table[key]] == data[table[key]]
  }

  ghost predicate ExtendsBut(except: Key, table: map<Key, nat>, data: seq<Page>, table': map<Key, nat>,
                             data': seq<Page>)
  {
    && |data'| == |data|
    && forall key :: key in table && table[key] < |data| && key != except ==>
         key in table' && table'[key] == table[key] && data'[table[key]] == data[table[key]]
  }

  /** The bytes replace those of the slot's page, and no other page changes. */
  ghost predicate Written(data: seq<Page>, slot: nat, offset: nat, bytes: seq<Byte>, data': seq<Page>)
    requires offset + |bytes| <= BUFFER_SIZE
  {
    slot < |data| && data' == data[slot := Overwrite(data[slot], offset, bytes)]
  }

  lemma UnmapOne(except: Key, table: map<Key, nat>, data: seq<Page>, table': map<Key, nat>, data': seq<Page>,
                 table'': map<Key, nat>)
    requires ExtendsBut(except, table, data, table', data') && (table'' == table' || table'' == table' - {except})
    ensures ExtendsBut(except, table, data, table'', data')
  {
  }

  // ---- What clients see ----

  /** The block as a read returns it: cached, or else on disk. */
  ghost function Seen(table: map<Key, nat>, data: seq<Page>, disk: map<nat, Page>, key: Key): Page {
    if key in table && table[key] < |data| then data[table[key]] else DiskPage(disk, key.1)
  }

  ghost function SeenByte(table: map<Key, nat>, data: seq<Page>, disk: map<nat, Page>, file: nat, p: nat): Byte {
    Seen(table, data, disk, (file, p - p % BUFFER_SIZE))[p % BUFFER_SIZE]
  }

  /** Clients see the same in every block. */
  ghost predicate SameView(table: map<Key, nat>, data: seq<Page>, table': map<Key, nat>, data': seq<Page>,
                           disk: map<nat, Page>)
  {
    forall key :: Seen(table', data', disk, key) == Seen(table, data, disk, key)
  }

  /** The bytes are what clients see from `offset` on. */
  ghost predicate SeenAs(table: map<Key, nat>, data: seq<Page>, disk: map<nat, Page>, file: nat, offset: nat,
                         bytes: seq<Byte>)
  {
    forall j :: 0 <= j < |bytes| ==> bytes[j] == SeenByte(table, data, disk, file, offset + j)
  }

  lemma ReadsNone(table: map<Key, nat>, data: seq<Page>, disk: map<nat, Page>, file: nat, offset: nat, bytes: seq<Byte>)
    requires bytes == []
    ensures SeenAs(table, data, disk, file, offset, bytes) && ReadsBack(table, data, file, offset, bytes)
    ensures SameView(table, data, table, data, disk) && Extends(table, data, table, data)
  {
  }

  lemma ViewTwice(table: map<Key, nat>, data: seq<Page>, table': map<Key, nat>, data': seq<Page>,
                  table'': map<Key, nat>, data'': seq<Page>, disk: map<nat, Page>, key: Key)
    requires SameView(table, data, table', data', disk) && SameView(table', data', table'', data'', disk)
    requires Extends(table, data, table', data') && Extends(table', data', table'', data'')
    ensures SameView(table, data, table'', data'', disk) && Extends(table, data, table'', data'')
    ensures Seen(table', data', disk, key) == Seen(table, data, disk, key)
  {
    hide Seen;
    forall key
      ensures Seen(table'', data'', disk, key) == Seen(table, data, disk, key)
    {
      assert Seen(table', data', disk, key) == Seen(table, data, disk, key);
    }
  }

  lemma ReadsKept(table: map<Key, nat>, data: seq<Page>, table': map<Key, nat>, data': seq<Page>,
                  file: nat, offset: nat, bytes: seq<Byte>)
    requires ReadsBack(table, data, file, offset, bytes) && Extends(table, data, table', data')
    ensures ReadsBack(table', data', file, offset, bytes)
  {
    forall j | 0 <= j < |bytes|
      ensures HoldsAt(table', data', file, offset + j, bytes[j])
    {
      assert HoldsAt(table, data, file, offset + j, bytes[j]);
    }
  }

  lemma ReadsMore(table: map<Key, nat>, data: seq<Page>, disk: map<nat, Page>, table': map<Key, nat>, data': seq<Page>,
                  file: nat, offset: nat, bytes: seq<Byte>, o: nat, n: nat)
    requires SeenAs(table, data, disk, file, offset, bytes) && ReadsBack(table', data', file, offset, bytes)
    requires o == (offset + |bytes|) % BUFFER_SIZE && o + n <= BUFFER_SIZE
    requires var key := (file, offset + |bytes| - o);
             key in table' && table'[key] < |data'| && data'[table'[key]] == Seen(table, data, disk, key)
    ensures var more := bytes + data'[table'[(file, offset + |bytes| - o)]][o..o + n];
            SeenAs(table, data, disk, file, offset, more) && ReadsBack(table', data', file, offset, more)
  {
    hide Seen;
    var more := bytes + data'[table'[(file, offset + |bytes| - o)]][o..o + n];
    forall j | 0 <= j < |more|
      ensures more[j] == SeenByte(table, data, disk, file, offset + j)
           && HoldsAt(table', data', file, offset + j, more[j])
    {
      if j < |bytes| {
        assert HoldsAt(table', data', file, offset + j, bytes[j]);
      } else {
        SameBlock(offset + |bytes|, o, j - |bytes|, n);
      }
    }
  }

  lemma SameViewHere(table: map<Key, nat>, data: seq<Page>, disk: map<nat, Page>)
    ensures SameView(table, data, table, data, disk)
  {
  }

  /** Loading an unmapped block into a buffer that no block is mapped to changes nothing that clients see. */
  lemma LoadedView(table: map<Key, nat>, data: seq<Page>, disk: map<nat, Page>, key: Key, id: nat)
    requires key !in table && id < |data| && forall other :: other in table ==> table[other] != id
    ensures SameView(table, data, table[key := id], data[id := DiskPage(disk, key.1)], disk)
  {
  }

  /** Byte `p` of the file is cached and is `b`. */
  ghost predicate HoldsAt(table: map<Key, nat>, data: seq<Page>, file: nat, p: nat, b: Byte) {
    var key := (file, p - p % BUFFER_SIZE);
    key in table && table[key] < |data| && data[table[key]][p % BUFFER_SIZE] == b
  }

  /** The bytes are cached from `offset` on. */
  ghost predicate ReadsBack(table: map<Key, nat>, data: seq<Page>, file: nat, offset: nat, bytes: seq<Byte>) {
    forall j :: 0 <= j < |bytes| ==> HoldsAt(table, data, file, offset + j, bytes[j])
  }

  /** The block holds a byte of the range. */
  predicate Touches(key: Key, file: nat, offset: nat, count: nat) {
    key.0 == file && count > 0 && key.1 < offset + count && offset < key.1 + BUFFER_SIZE
  }

  /** Cached blocks that hold none of the range are as before. */
  ghost predicate KeepsOthers(table: map<Key, nat>, data: seq<Page>, table': map<Key, nat>, data': seq<Page>,
                              file: nat, offset: nat, count: nat)
  {
    && |data'| == |data|
    && forall key :: key in table && table[key] < |data| && !Touches(key, file, offset, count) ==>
         key in table' && table'[key] == table[key] && data'[table[key]] == data[table[key]]
  }

  /** Cached blocks stay cached, and their bytes outside the range are as before. */
  ghost predicate KeepsBytes(table: map<Key, nat>, data: seq<Page>, table': map<Key, nat>, data': seq<Page>,
                             file: nat, offset: nat, count: nat)
  {
    && |data'| == |data|
    && (forall key :: key in table && table[key] < |data| ==> key in table' && table'[key] == table[key])
    && (forall key: Key, k :: key in table && table[key] < |data| && 0 <= k < BUFFER_SIZE ==>
          KeepsByte(data, data', table[key], k) || (key.0 == file && offset <= key.1 + k < offset + count))
  }

  ghost predicate KeepsByte(data: seq<Page>, data': seq<Page>, id: nat, k: nat)
    requires id < |data| == |data'| && k < BUFFER_SIZE
  {
    data'[id][k] == data[id][k]
  }

  lemma KeepsAll(table: map<Key, nat>, data: seq<Page>, file: nat, offset: nat, bytes: seq<Byte>)
    requires bytes == []
    ensures KeepsOthers(table, data, table, data, file, offset, 0)
         && KeepsBytes(table, data, table, data, file, offset, 0)
    ensures ReadsBack(table, data, file, offset, bytes)
  {
  }

  /** Keeping what lies outside a range is keeping what lies outside a longer one. */
  lemma KeepsLess(table: map<Key, nat>, data: seq<Page>, table': map<Key, nat>, data': seq<Page>,
                  file: nat, offset: nat, count: nat, more: nat)
    requires KeepsOthers(table, data, table', data', file, offset, count) && count <= more
    ensures KeepsOthers(table, data, table', data', file, offset, more)
    ensures KeepsBytes(table, data, table', data', file, offset, count) ==>
              KeepsBytes(table, data, table', data', file, offset, more)
  {
  }

  lemma KeepsMoreBlocks(table: map<Key, nat>, data: seq<Page>, table': map<Key, nat>, data': seq<Page>,
                        table'': map<Key, nat>, data'': seq<Page>, file: nat, offset: nat, done: nat, n: nat, o: nat)
    requires KeepsOthers(table, data, table', data', file, offset, done)
    requires o == (offset + done) % BUFFER_SIZE && 0 < n && o + n <= BUFFER_SIZE
    requires ExtendsBut((file, offset + done - o), table', data', table'', data'')
    ensures KeepsOthers(table, data, table'', data'', file, offset, done + n)
  {
    assert Touches((file, offset + done - o), file, offset, done + n);
  }

  lemma KeepsMoreBytes(table: map<Key, nat>, data: seq<Page>, table': map<Key, nat>, data': seq<Page>,
                       table'': map<Key, nat>, data'': seq<Page>, file: nat, offset: nat, done: nat, n: nat, o: nat,
                       slot: nat, buffer: seq<Byte>)
    requires KeepsBytes(table, data, table', data', file, offset, done) && done + n <= |buffer|
    requires o == (offset + done) % BUFFER_SIZE && 0 < n && o + n <= BUFFER_SIZE
    requires ExtendsBut((file, offset + done - o), table', data', table'', data'')
    requires Written(data', slot, o, buffer[done..done + n], data'')
          && table'' == table'[(file, offset + done - o) := slot]
    requires (file, offset + done - o) in table' ==> table'[(file, offset + done - o)] == slot
    ensures KeepsBytes(table, data, table'', data'', file, offset, done + n)
  {
    forall key: Key, k | key in table && table[key] < |data| && 0 <= k < BUFFER_SIZE
      ensures KeepsByte(data, data'', table[key], k) || (key.0 == file && offset <= key.1 + k < offset + done + n)
    {
      assert KeepsByte(data, data', table[key], k) || (key.0 == file && offset <= key.1 + k < offset + done);
    }
  }

  lemma ReadsBackMore(table: map<Key, nat>, data: seq<Page>, table': map<Key, nat>, data': seq<Page>,
                      file: nat, offset: nat, done: nat, n: nat, o: nat, slot: nat, buffer: seq<Byte>)
    requires 0 < n && done + n <= |buffer| && ReadsBack(table, data, file, offset, buffer[..done])
    requires o == (offset + done) % BUFFER_SIZE && o + n <= BUFFER_SIZE && (done > 0 ==> o == 0)
    requires ExtendsBut((file, offset + done - o), table, data, table', data')
    requires Written(data, slot, o, buffer[done..done + n], data') && table' == table[(file, offset + done - o) := slot]
    ensures ReadsBack(table', data', file, offset, buffer[..done + n])
  {
    forall j | 0 <= j < done + n
      ensures HoldsAt(table', data', file, offset + j, buffer[j])
    {
      SameBlock(offset + done, o, j - done, n);
      if j < done {
        assert HoldsAt(table, data, file, offset + j, buffer[..done][j]);
      } else {
        assert buffer[done..done + n][j - done] == buffer[j];
      }
    }
  }

  // ---- What flushing does to the disk ----

  /** The disk holds the same at that offset. */
  ghost predicate SameAt(disk: map<nat, Page>, disk': map<nat, Page>, offset: nat) {
    (offset in disk' <==> offset in disk) && (offset in disk ==> disk'[offset] == disk[offset])
  }

  ghost predicate StandsAt(buffers: Buffers, id: nat, offset: nat) {
    id < |buffers| && buffers[id].offset == offset
  }

  /** The offset holds the data of a flushed buffer that stands there, and what it held before if none does. */
  ghost predicate FlushedAt(buffers: Buffers, data: seq<Page>, ids: set<nat>, disk: map<nat, Page>,
                            disk': map<nat, Page>,
                            offset: nat)
  {
    if exists id :: id in ids && StandsAt(buffers, id, offset) then
      && offset in disk'
      && exists id :: id in ids && StandsAt(buffers, id, offset) && id < |data| && disk'[offset] == data[id]
    else
      SameAt(disk, disk', offset)
  }

  /** The disk after flushing those buffers: their data at their offsets, and nothing else changed. */
  ghost predicate Flushed(buffers: Buffers, data: seq<Page>, ids: set<nat>, disk: map<nat, Page>,
                          disk': map<nat, Page>)
  {
    forall offset: nat :: FlushedAt(buffers, data, ids, disk, disk', offset)
  }

  lemma FlushedNone(buffers: Buffers, data: seq<Page>, list: seq<nat>, disk: map<nat, Page>)
    requires list == []
    ensures Flushed(buffers, data, Members(list), disk, disk)
  {
  }

  lemma FlushedStep(buffers: Buffers, data: seq<Page>, list: seq<nat>, i: nat, start: map<nat, Page>,
                    disk: map<nat, Page>, disk': map<nat, Page>)
    requires i < |list| && list[i] < |buffers| == |data| && Flushed(buffers, data, Members(list[..i]), start, disk)
    requires disk' == disk[buffers[list[i]].offset := data[list[i]]] || (list[i] in list[..i] && disk' == disk)
    ensures Flushed(buffers, data, Members(list[..i + 1]), start, disk')
  {
    TakeMore(list, i);
    var ids, ids' := Members(list[..i]), Members(list[..i + 1]);
    assert ids' == ids + {list[i]};
    forall offset: nat
      ensures FlushedAt(buffers, data, ids', start, disk', offset)
    {
      assert FlushedAt(buffers, data, ids, start, disk, offset);
      if offset == buffers[list[i]].offset {
        assert StandsAt(buffers, list[i], offset);
      }
    }
  }

  /** The offsets of the dirty buffers. */
  ghost function DirtyOffsets(buffers: Buffers): set<nat> {
    set id | 0 <= id < |buffers| && buffers[id].state == Dirty :: buffers[id].offset
  }

  ghost function DirtyOf(buffers: Buffers, file: nat): set<nat> {
    set id: nat | id < |buffers| && buffers[id].state == Dirty && buffers[id].fileId == file
  }

  lemma SameOffsets(buffers: Buffers, buffers': Buffers, id: nat)
    requires id < |buffers| == |buffers'| && buffers' == buffers[id := buffers'[id]]
    requires buffers'[id].state != Dirty || (buffers[id].state == Dirty && buffers'[id].offset == buffers[id].offset)
    ensures DirtyOffsets(buffers') <= DirtyOffsets(buffers)
  {
  }

  // ---- What a write may reach ----

  /** The block at that offset holds a byte of the range. */
  predicate InRange(at: nat, offset: nat, count: nat) {
    count > 0 && at % BUFFER_SIZE == 0 && at < offset + count && offset < at + BUFFER_SIZE
  }

  /** A flush during the write may change that offset: a dirty buffer stands there, or a block of the range. */
  ghost predicate MayReach(buffers: Buffers, at: nat, offset: nat, count: nat) {
    at in DirtyOffsets(buffers) || InRange(at, offset, count)
  }

  /**
   * With `count` bytes written: only blocks of the range are new or newly dirty, and the disk elsewhere is as before.
   */
  ghost predicate Spared(table: map<Key, nat>, buffers: Buffers, disk: map<nat, Page>,
                         table': map<Key, nat>, buffers': Buffers, disk': map<nat, Page>,
                         file: nat, offset: nat, count: nat)
  {
    && (forall key :: key in table' && key !in table ==> Touches(key, file, offset, count))
    && (forall at :: at in DirtyOffsets(buffers') ==> MayReach(buffers, at, offset, count))
    && (forall at: nat :: SameAt(disk, disk', at) || MayReach(buffers, at, offset, count))
  }

  lemma SparedAll(table: map<Key, nat>, buffers: Buffers, disk: map<nat, Page>, file: nat, offset: nat)
    ensures Spared(table, buffers, disk, table, buffers, disk, file, offset, 0)
  {
  }

  lemma SparedLess(table: map<Key, nat>, buffers: Buffers, disk: map<nat, Page>,
                   table': map<Key, nat>, buffers': Buffers, disk': map<nat, Page>,
                   file: nat, offset: nat, count: nat, more: nat)
    requires Spared(table, buffers, disk, table', buffers', disk', file, offset, count) && count <= more
    ensures Spared(table, buffers, disk, table', buffers', disk', file, offset, more)
  {
    forall at: nat | MayReach(buffers, at, offset, count)
      ensures MayReach(buffers, at, offset, more)
    {
    }
  }

  lemma SparedMore(table: map<Key, nat>, buffers: Buffers, disk: map<nat, Page>,
                   table': map<Key, nat>, buffers': Buffers, disk': map<nat, Page>,
                   table'': map<Key, nat>, buffers'': Buffers, disk'': map<nat, Page>,
                   file: nat, offset: nat, done: nat, n: nat, o: nat)
    requires Spared(table, buffers, disk, table', buffers', disk', file, offset, done)
    requires o == (offset + done) % BUFFER_SIZE && 0 < n && o + n <= BUFFER_SIZE
    requires table''.Keys <= table'.Keys + {(file, offset + done - o)}
    requires DirtyOffsets(buffers'') <= DirtyOffsets(buffers') + {offset + done - o}
    requires forall at: nat :: at == offset + done - o || SameAt(disk', disk'', at)
    ensures Spared(table, buffers, disk, table'', buffers'', disk'', file, offset, done + n)
  {
    hide DirtyOffsets;
    SparedLess(table, buffers, disk, table', buffers', disk', file, offset, done, done + n);
    assert Touches((file, offset + done - o), file, offset, done + n);
    assert InRange(offset + done - o, offset, done + n);
    forall at: nat
      ensures SameAt(disk, disk'', at) || MayReach(buffers, at, offset, done + n)
    {
      assert SameAt(disk, disk', at) || MayReach(buffers, at, offset, done + n);
      assert at == offset + done - o || SameAt(disk', disk'', at);
    }
    forall at | at in DirtyOffsets(buffers'')
      ensures MayReach(buffers, at, offset, done + n)
    {
      assert at in DirtyOffsets(buffers') || at == offset + done - o;
    }
  }

  lemma SparedDisk(table: map<Key, nat>, buffers: Buffers, disk: map<nat, Page>,
                   table': map<Key, nat>, buffers': Buffers, disk': map<nat, Page>, file: nat, offset: nat, count: nat)
    requires Spared(table, buffers, disk, table', buffers', disk', file, offset, count)
    ensures forall at: nat :: SameAt(disk, disk', at) || MayReach(buffers, at, offset, count)
  {
  }

  /** A flush of dirty buffers keeps that. */
  lemma SparedFlush(table: map<Key, nat>, buffers: Buffers, disk: map<nat, Page>,
                    table': map<Key, nat>, buffers': Buffers, disk': map<nat, Page>,
                    data: seq<Page>, ids: set<nat>, disk'': map<nat, Page>, file: nat, offset: nat, count: nat)
    requires Spared(table, buffers, disk, table', buffers', disk', file, offset, count)
    requires Flushed(buffers', data, ids, disk', disk'')
    requires forall id :: id in ids ==> id < |buffers'| && buffers'[id].state == Dirty
    ensures Spared(table, buffers, disk, table', Cleaned(buffers', ids), disk'', file, offset, count)
  {
    forall at: nat
      ensures SameAt(disk, disk'', at) || MayReach(buffers, at, offset, count)
    {
      assert FlushedAt(buffers', data, ids, disk', disk'', at);
      if exists id :: id in ids && StandsAt(buffers', id, at) {
        var id :| id in ids && StandsAt(buffers', id, at);
        assert at in DirtyOffsets(buffers');
      }
    }
    forall at | at in DirtyOffsets(Cleaned(buffers', ids))
      ensures at in DirtyOffsets(buffers')
    {
    }
  }

  /**
   * A block outside the range reads as before if it was cached, or if no dirty buffer and no block of the range
   * stands at its offset.
   */
  ghost predicate ReadsAsBefore(table: map<Key, nat>, data: seq<Page>, disk: map<nat, Page>,
                                table': map<Key, nat>, data': seq<Page>, disk': map<nat, Page>,
                                buffers: Buffers, file: nat, offset: nat, count: nat)
  {
    forall key :: !Touches(key, file, offset, count) && (key in table || !MayReach(buffers, key.1, offset, count)) ==>
      Seen(table', data', disk', key) == Seen(table, data, disk, key)
  }

  lemma SparedReads(table: map<Key, nat>, data: seq<Page>, disk: map<nat, Page>,
                    table': map<Key, nat>, data': seq<Page>, disk': map<nat, Page>,
                    buffers: Buffers, buffers': Buffers, file: nat, offset: nat, count: nat)
    requires Spared(table, buffers, disk, table', buffers', disk', file, offset, count)
    requires KeepsOthers(table, data, table', data', file, offset, count)
    requires forall key :: key in table ==> table[key] < |data|
    ensures ReadsAsBefore(table, data, disk, table', data', disk', buffers, file, offset, count)
  {
    hide DirtyOffsets;
    forall key: Key | !Touches(key, file, offset, count) && (key in table || !MayReach(buffers, key.1, offset, count))
      ensures Seen(table', data', disk', key) == Seen(table, data, disk, key)
    {
      assert SameAt(disk, disk', key.1) || MayReach(buffers, key.1, offset, count);
    }
  }

  // ---- How many buffers a range needs ----

  /** How many of the file's blocks from `lo` to `hi` are not mapped. */
  ghost function Unmapped(keys: set<Key>, file: nat, lo: nat, hi: nat): nat {
    if hi <= lo then 0 else Unmapped(keys, file, lo, hi - 1) + if (file, (hi - 1) * BUFFER_SIZE) in keys then 0 else 1
  }

  lemma {:induction false} UnmappedGrows(keys: set<Key>, file: nat, lo: nat, mid: nat, hi: nat)
    requires mid <= hi
    ensures Unmapped(keys, file, lo, mid) <= Unmapped(keys, file, lo, hi)
    decreases hi - mid
  {
    if mid < hi {
      UnmappedGrows(keys, file, lo, mid, hi - 1);
    }
  }

  /**
   * With `done` bytes of the range dealt with: a free buffer went to each unmapped block, and later blocks are as
   * before.
   */
  ghost predicate Drawn(start: set<Key>, free: nat, keys: set<Key>, free': nat, file: nat, offset: nat, done: nat) {
    && free' == free - Unmapped(start, file, offset / BUFFER_SIZE, EndBlock(offset, done))
    && forall n: nat :: n >= EndBlock(offset, done) ==>
        ((file, n * BUFFER_SIZE) in keys <==> (file, n * BUFFER_SIZE) in start)
  }

  lemma DrawnNone(keys: set<Key>, free: nat, file: nat, offset: nat)
    ensures Drawn(keys, free, keys, free, file, offset, 0)
  {
  }

  lemma DrawnEnough(start: set<Key>, free: nat, keys: set<Key>, free': nat, file: nat, offset: nat, done: nat)
    requires Drawn(start, free, keys, free', file, offset, done)
    ensures Unmapped(start, file, offset / BUFFER_SIZE, EndBlock(offset, done)) <= free
  {
  }

  /** The next block takes a free buffer or fails, and then the range needs more than there were. */
  lemma DrawnMore(start: set<Key>, free: nat, keys: set<Key>, free': nat, file: nat, offset: nat, done: nat, more: nat,
                  count: nat)
    requires Drawn(start, free, keys, free', file, offset, done) && 0 < more && done + more <= count
    requires (offset + done) % BUFFER_SIZE + more <= BUFFER_SIZE && (done > 0 ==> (offset + done) % BUFFER_SIZE == 0)
    ensures var key := (file, offset + done - (offset + done) % BUFFER_SIZE);
            if key in keys then Drawn(start, free, keys + {key}, free', file, offset, done + more)
            else if free' > 0 then Drawn(start, free, keys + {key}, free' - 1, file, offset, done + more)
            else Unmapped(start, file, offset / BUFFER_SIZE, EndBlock(offset, count)) > free
  {
    var n := (offset + done) / BUFFER_SIZE;
    assert EndBlock(offset, done) == n && EndBlock(offset, done + more) == n + 1 <= EndBlock(offset, count);
    assert offset + done - (offset + done) % BUFFER_SIZE == n * BUFFER_SIZE;
    UnmappedGrows(start, file, offset / BUFFER_SIZE, n + 1, EndBlock(offset, count));
  }

  // ---- Flushing ----

  /** The data of the file's dirty buffers is on disk. */
  ghost predicate FileOnDisk(buffers: Buffers, data: seq<Page>, file: nat, disk: map<nat, Page>) {
    forall id :: 0 <= id < |buffers| == |data| && buffers[id].fileId == file && buffers[id].state == Dirty ==>
      buffers[id].offset in disk && disk[buffers[id].offset] == data[id]
  }

  /** Buffers of one file have different offsets, so flushing them loses nothing. */
  lemma ListOnDisk(buffers: Buffers, free: seq<nat>, dirty: seq<nat>, table: map<Key, nat>, data: seq<Page>, file: nat,
                   list: seq<nat>, disk: map<nat, Page>)
    requires Partitioned(buffers, free, table) && DirtyListed(buffers, dirty) && OnDisk(buffers, data, list, list, disk)
    requires forall id :: id in list <==> id in dirty && id < |buffers| && buffers[id].fileId == file
    ensures FileOnDisk(buffers, data, file, disk)
  {
    hide Distinct;
    forall id | 0 <= id < |buffers| == |data| && buffers[id].fileId == file && buffers[id].state == Dirty
      ensures buffers[id].offset in disk && disk[buffers[id].offset] == data[id]
    {
      assert id in list;
      forall other | other in list && other != id
        ensures buffers[other].offset != buffers[id].offset
      {
        assert table[buffers[other].Key()] == other;
      }
      assert OwnOffset(buffers, list, id);
    }
  }

  /** The buffers with those in `ids` no longer dirty. */
  ghost function Cleaned(buffers: Buffers, ids: set<nat>): (r: Buffers)
    ensures |r| == |buffers| && forall i :: 0 <= i < |r| ==>
              r[i].fileId == buffers[i].fileId && r[i].offset == buffers[i].offset
  {
    seq(|buffers|, i requires 0 <= i < |buffers| =>
      if i in ids && buffers[i].state == Dirty then buffers[i].(state := Clean) else buffers[i])
  }

  /** No other listed buffer is written to the same place. */
  ghost predicate OwnOffset(buffers: Buffers, list: seq<nat>, id: nat) {
    && id < |buffers|
    && forall other :: other in list && other != id ==> other < |buffers| && buffers[other].offset != buffers[id].offset
  }

  /** The data of those buffers is on disk, unless another listed buffer has the same offset. */
  ghost predicate OnDisk(buffers: Buffers, data: seq<Page>, list: seq<nat>, done: seq<nat>, disk: map<nat, Page>) {
    forall id :: id in done && id < |data| && OwnOffset(buffers, list, id) ==>
      buffers[id].offset in disk && disk[buffers[id].offset] == data[id]
  }

  lemma OnDiskNone(buffers: Buffers, data: seq<Page>, list: seq<nat>, done: seq<nat>, disk: map<nat, Page>)
    requires done == []
    ensures OnDisk(buffers, data, list, done, disk)
  {
  }

  lemma OnDiskStep(buffers: Buffers, data: seq<Page>, list: seq<nat>, i: nat, disk: map<nat, Page>,
                   disk': map<nat, Page>)
    requires i < |list| && list[i] < |buffers| == |data| && OnDisk(buffers, data, list, list[..i], disk)
    requires disk' == disk[buffers[list[i]].offset := data[list[i]]] || (list[i] in list[..i] && disk' == disk)
    ensures OnDisk(buffers, data, list, list[..i + 1], disk')
  {
    TakeMore(list, i);
    forall id | id in list[..i + 1] && id < |data| && OwnOffset(buffers, list, id)
      ensures buffers[id].offset in disk' && disk'[buffers[id].offset] == data[id]
    {
      assert list[i] in list;
    }
  }

  ghost function Members(list: seq<nat>): set<nat> {
    set id | id in list
  }

  lemma FirstListed(list: seq<nat>)
    ensures list == [] || list[0] in list
  {
  }

  lemma CleanedNone(buffers: Buffers, list: seq<nat>)
    requires list == []
    ensures Cleaned(buffers, Members(list)) == buffers
  {
  }

  lemma CleanedStep(buffers: Buffers, list: seq<nat>, i: nat)
    requires i < |list|
    ensures Cleaned(Cleaned(buffers, Members(list[..i])), {list[i]}) == Cleaned(buffers, Members(list[..i + 1]))
  {
    TakeMore(list, i);
  }

  lemma TakeMore(list: seq<nat>, i: nat)
    requires i < |list|
    ensures forall id :: id in list[..i + 1] <==> id in list[..i] || id == list[i]
  {
    assert list[..i + 1] == list[..i] + [list[i]];
  }

  ghost predicate NoneDirtyOf(buffers: Buffers, file: nat) {
    forall id :: 0 <= id < |buffers| && buffers[id].fileId == file ==> buffers[id].state != Dirty
  }

  /** Buffers of other files are as before. */
  ghost predicate SameOutside(before: Buffers, after: Buffers, file: nat) {
    && |after| == |before|
    && forall id :: 0 <= id < |before| && before[id].fileId != file && before[id].state != Free ==>
        after[id] == before[id]
  }

  lemma NoneMapped(buffers: Buffers, free: seq<nat>, table: map<Key, nat>, file: nat)
    requires Partitioned(buffers, free, table) && forall key :: key in table ==> key.0 != file
    ensures forall id :: 0 <= id < |buffers| && buffers[id].state != Free ==> buffers[id].fileId != file
  {
    hide Distinct;
  }

  function OfFile(list: seq<nat>, buffers: Buffers, file: nat): seq<nat> {
    if list == [] then []
    else if list[0] < |buffers| && buffers[list[0]].fileId == file then [list[0]] + OfFile(list[1..], buffers, file)
    else OfFile(list[1..], buffers, file)
  }

  lemma {:induction false} OfFileMembers(list: seq<nat>, buffers: Buffers, file: nat)
    ensures forall id :: id in OfFile(list, buffers, file) <==>
              id in list && id < |buffers| && buffers[id].fileId == file
  {
    if list != [] {
      OfFileMembers(list[1..], buffers, file);
      assert list == [list[0]] + list[1..];
    }
  }

  class BufferManager {
    const pool: BufferPool
    var writeMode: WriteMode
    var disk: map<nat, Page>

    ghost predicate Valid()
      reads this, pool
    {
      pool.Valid()
    }

    constructor (mode: WriteMode, disk: map<nat, Page>)
      ensures Valid() && fresh(pool) && writeMode == mode && this.disk == disk
      ensures pool.dirtyList == [] && pool.bufferMap == map[] && |pool.freeList| == MAX_BUFFERS
    {
      pool := new BufferPool();
      writeMode := mode;
      this.disk := disk;
    }

    /** Write a dirty buffer to disk; the disk offset does not depend on the file. */
    method FlushBuffer(id: nat) returns (ok: bool)
      requires Valid()
      modifies this`disk, pool`buffers, pool`dirtyList
      ensures Valid() && ok == (id < |pool.buffers|)
      ensures pool.buffers == Cleaned(old(pool.buffers), {id}) && pool.dirtyList == Retain(old(pool.dirtyList), id)
      ensures disk == if id in old(pool.dirtyList) then old(disk)[pool.buffers[id].offset := pool.data[id]]
                    else old(disk)
    {
      hide Distinct, Retain;
      if id >= |pool.buffers| {
        RetainAbsent(pool.dirtyList, id);
        return false;
      }
      if pool.buffers[id].state != Dirty {
        RetainAbsent(pool.dirtyList, id);
        return true;
      }
      pool.buffers := pool.buffers[id := pool.buffers[id].(state := IoInProgress)];
      assert old(pool.buffers) == pool.buffers[id := pool.buffers[id].(state := Dirty)];
      disk := disk[pool.buffers[id].offset := pool.data[id]];
      pool.ClearDirty(id);
      return true;
    }

    /** After flushing everything nothing is dirty; the disk has changed at the offsets of the dirty buffers only. */
    method FlushAll() returns (flushed: nat)
      requires Valid()
      modifies this`disk, pool`buffers, pool`dirtyList
      ensures Valid() && flushed == |old(pool.dirtyList)| && pool.dirtyList == []
      ensures pool.buffers == Cleaned(old(pool.buffers), Members(old(pool.dirtyList)))
      ensures forall id :: 0 <= id < |pool.buffers| ==> pool.buffers[id].state != Dirty
      ensures OnDisk(old(pool.buffers), pool.data, old(pool.dirtyList), old(pool.dirtyList), disk)
      ensures Flushed(old(pool.buffers), pool.data, Members(old(pool.dirtyList)), old(disk), disk)
    {
      hide Flushed;
      flushed := FlushList(pool.dirtyList);
      FirstListed(pool.dirtyList);
    }

    /** Flush the listed buffers. */
    method FlushList(list: seq<nat>) returns (flushed: nat)
      requires Valid() && forall id :: id in list ==> id in pool.dirtyList
      modifies this`disk, pool`buffers, pool`dirtyList
      ensures Valid() && flushed == |list|
      ensures pool.buffers == Cleaned(old(pool.buffers), Members(list))
      ensures forall id :: id in pool.dirtyList <==> id in old(pool.dirtyList) && id !in list
      ensures OnDisk(old(pool.buffers), pool.data, list, list, disk)
      ensures Flushed(old(pool.buffers), pool.data, Members(list), old(disk), disk)
    {
      hide Distinct, Retain, Cleaned, Partitioned, DirtyListed, OnDisk, Flushed;
      FlushedNone(pool.buffers, pool.data, list[..0], disk);
      OnDiskNone(pool.buffers, pool.data, list, list[..0], disk);
      CleanedNone(pool.buffers, list[..0]);
      DirtyInRange(pool.buffers, pool.dirtyList);
      flushed := 0;
      for i := 0 to |list|
        invariant Valid() && flushed == i
        invariant pool.buffers == Cleaned(old(pool.buffers), Members(list[..i]))
        invariant forall id :: id in pool.dirtyList <==> id in old(pool.dirtyList) && id !in list[..i]
        invariant OnDisk(old(pool.buffers), pool.data, list, list[..i], disk)
        invariant Flushed(old(pool.buffers), pool.data, Members(list[..i]), old(disk), disk)
      {
        ghost var before, diskBefore := pool.dirtyList, disk;
        CleanedStep(old(pool.buffers), list, i);
        var ok := FlushBuffer(list[i]);
        RetainMembers(before, list[i]);
        TakeMore(list, i);
        assert list[i] in list;
        assert pool.buffers[list[i]].offset == old(pool.buffers)[list[i]].offset;
        OnDiskStep(old(pool.buffers), pool.data, list, i, diskBefore, disk);
        FlushedStep(old(pool.buffers), pool.data, list, i, old(disk), diskBefore, disk);
        flushed := flushed + 1;
      }
      assert list[..|list|] == list;
    }

    /** Afterwards no buffer of the file is dirty and its data is on disk; buffers of other files keep their state. */
    method FlushFile(file: nat) returns (flushed: nat)
      requires Valid()
      modifies this`disk, pool`buffers, pool`dirtyList
      ensures Valid() && NoneDirtyOf(pool.buffers, file) && SameOutside(old(pool.buffers), pool.buffers, file)
      ensures forall id :: 0 <= id < |pool.buffers| ==> pool.buffers[id].Key() == old(pool.buffers)[id].Key()
      ensures FileOnDisk(old(pool.buffers), pool.data, file, disk)
      ensures Flushed(old(pool.buffers), pool.data, DirtyOf(old(pool.buffers), file), old(disk), disk)
    {
      hide Distinct, Flushed;
      var list := OfFile(pool.dirtyList, pool.buffers, file);
      OfFileMembers(pool.dirtyList, pool.buffers, file);
      flushed := FlushList(list);
      assert Members(list) == DirtyOf(old(pool.buffers), file);
      ListOnDisk(old(pool.buffers), old(pool.freeList), old(pool.dirtyList), old(pool.bufferMap), pool.data, file,
                 list, disk);
    }

    /** Drop every buffer of the file, after writing the dirty ones. */
    method InvalidateFile(file: nat)
      requires Valid()
      modifies this`disk, pool`buffers, pool`dirtyList, pool`freeList, pool`bufferMap
      ensures Valid() && SameOutside(old(pool.buffers), pool.buffers, file)
      ensures forall id :: 0 <= id < |pool.buffers| && pool.buffers[id].state != Free ==>
                pool.buffers[id].fileId != file
      ensures forall key :: key in pool.bufferMap <==> key in old(pool.bufferMap) && key.0 != file
      ensures FileOnDisk(old(pool.buffers), pool.data, file, disk)
      ensures Flushed(old(pool.buffers), pool.data, DirtyOf(old(pool.buffers), file), old(disk), disk)
    {
      hide Partitioned, DirtyListed, FileOnDisk, Flushed;
      var flushed := FlushFile(file);
      var pending := set key | key in pool.bufferMap && key.0 == file;
      while pending != {}
        invariant Valid() && NoneDirtyOf(pool.buffers, file) && SameOutside(old(pool.buffers), pool.buffers, file)
        invariant forall key :: key in pool.bufferMap <==>
                  key in old(pool.bufferMap) && (key.0 != file || key in pending)
        invariant forall key :: key in pending ==> key.0 == file && key in old(pool.bufferMap)
        invariant FileOnDisk(old(pool.buffers), pool.data, file, disk)
        invariant Flushed(old(pool.buffers), pool.data, DirtyOf(old(pool.buffers), file), old(disk), disk)
        decreases |pending|
      {
        var key :| key in pending;
        DropKey(key);
        pending := pending - {key};
      }
      NoneMapped(pool.buffers, pool.freeList, pool.bufferMap, file);
    }

    method DropKey(key: Key)
      requires Valid() && key in pool.bufferMap && NoneDirtyOf(pool.buffers, key.0)
      modifies pool`buffers, pool`freeList, pool`bufferMap
      ensures Valid() && NoneDirtyOf(pool.buffers, key.0) && SameOutside(old(pool.buffers), pool.buffers, key.0)
      ensures pool.bufferMap == old(pool.bufferMap) - {key}
    {
      hide Distinct;
      pool.FreeBuffer(pool.bufferMap[key]);
    }

    // ---- Reading and writing ----

    method ReadBlock(key: Key) returns (r: Option<nat>)
      requires Valid()
      modifies pool`buffers, pool`freeList, pool`bufferMap, pool`data
      ensures Valid() && r.None? == (key !in old(pool.bufferMap) && old(pool.freeList) == [])
      ensures Extends(old(pool.bufferMap), old(pool.data), pool.bufferMap, pool.data)
      ensures r.Some? ==> key in pool.bufferMap && pool.bufferMap[key] == r.value < |pool.data|
      ensures r.Some? ==> pool.data[r.value] == Seen(old(pool.bufferMap), old(pool.data), disk, key)
      ensures SameView(old(pool.bufferMap), old(pool.data), pool.bufferMap, pool.data, disk)
      ensures pool.freeList == if r.None? || key in old(pool.bufferMap) then old(pool.freeList)
                    else old(pool.freeList)[1..]
      ensures pool.bufferMap.Keys == if r.None? then old(pool.bufferMap).Keys else old(pool.bufferMap).Keys + {key}
    {
      hide Distinct, SameView;
      SameViewHere(pool.bufferMap, pool.data, disk);
      if key in pool.bufferMap {
        return Some(pool.bufferMap[key]);
      }
      r := pool.Allocate(key);
      if r.Some? {
        LoadedView(old(pool.bufferMap), pool.data, disk, key, r.value);
        pool.data := pool.data[r.value := DiskPage(disk, key.1)];
      }
    }

    /**
     * Write part of one block: over its page if it is mapped, otherwise over what the next free buffer holds, which
     * is not read from disk first. In write-back mode the block is mapped and dirty afterwards. In write-through mode
     * the flush comes before the buffer is marked, so the block reaches the disk exactly if it was dirty already.
     */
    method WriteBlock(key: Key, offset: nat, bytes: seq<Byte>) returns (ok: bool)
      requires Valid() && offset + |bytes| <= BUFFER_SIZE
      modifies this`disk, pool
      ensures Valid() && !ok == (key !in old(pool.bufferMap) && old(pool.freeList) == [])
      ensures !ok ==> disk == old(disk) && unchanged(pool)
      ensures ok ==>
                Written(old(pool.data), Slot(old(pool.bufferMap), old(pool.freeList), key), offset, bytes, pool.data)
      ensures ExtendsBut(key, old(pool.bufferMap), old(pool.data), pool.bufferMap, pool.data)
      ensures ok && writeMode == WriteBack ==>
                && disk == old(disk) && IsDirty(key)
                && pool.bufferMap == old(pool.bufferMap)[key := Slot(old(pool.bufferMap), old(pool.freeList), key)]
      ensures ok && writeMode == WriteThrough ==>
                && disk == (if old(IsDirty(key)) then old(disk)[key.1 := pool.data[old(pool.bufferMap)[key]]]
                    else old(disk))
                && pool.bufferMap == (if old(InUse(key)) then old(pool.bufferMap) else old(pool.bufferMap) - {key})
      ensures DirtyOffsets(pool.buffers) <= DirtyOffsets(old(pool.buffers)) + {key.1}
      ensures ok && writeMode == WriteBack ==>
                pool.freeList == if key in old(pool.bufferMap) then old(pool.freeList) else old(pool.freeList)[1..]
      ensures ok && writeMode == WriteThrough ==> |pool.freeList| >= |old(pool.freeList)|
    {
      hide Partitioned, DirtyListed, ExtendsBut, Written, DirtyOffsets;
      var r := PutBytes(key, offset, bytes);
      if r.None? {
        return false;
      }
      if writeMode == WriteThrough {
        FinishThrough(key, r.value);
        UnmapOne(key, old(pool.bufferMap), old(pool.data), old(pool.bufferMap)[key := r.value], pool.data,
                 pool.bufferMap);
      } else {
        FinishBack(key, r.value);
      }
      return true;
    }

    method PutBytes(key: Key, offset: nat, bytes: seq<Byte>) returns (r: Option<nat>)
      requires Valid() && offset + |bytes| <= BUFFER_SIZE
      modifies pool
      ensures Valid() && r.None? == (key !in old(pool.bufferMap) && old(pool.freeList) == [])
      ensures r.None? ==> unchanged(pool)
      ensures r.Some? ==> r.value == Slot(old(pool.bufferMap), old(pool.freeList), key)
      ensures r.Some? ==> Referenced(key, r.value) && pool.bufferMap == old(pool.bufferMap)[key := r.value]
      ensures r.Some? ==>
                IsDirty(key) == old(IsDirty(key)) && (pool.buffers[r.value].refCount == 1 <==> !old(InUse(key)))
      ensures r.Some? ==> Written(old(pool.data), r.value, offset, bytes, pool.data)
      ensures ExtendsBut(key, old(pool.bufferMap), old(pool.data), pool.bufferMap, pool.data)
      ensures DirtyOffsets(pool.buffers) <= DirtyOffsets(old(pool.buffers))
      ensures pool.freeList == if r.None? || key in old(pool.bufferMap) then old(pool.freeList)
                    else old(pool.freeList)[1..]
    {
      hide Distinct, DirtyOffsets, Overwrite;
      r := pool.Allocate(key);
      if r.Some? {
        SameOffsets(old(pool.buffers), pool.buffers, r.value);
        pool.data := pool.data[r.value := Overwrite(pool.data[r.value], offset, bytes)];
      }
    }

    /** The key is mapped and somebody holds a reference to its buffer. */
    ghost predicate InUse(key: Key)
      reads pool
    {
      key in pool.bufferMap && pool.bufferMap[key] < |pool.buffers| && pool.buffers[pool.bufferMap[key]].refCount > 0
    }

    /** The buffer is mapped under the key and has a reference. */
    ghost predicate Referenced(key: Key, id: nat)
      reads pool
    {
      && key in pool.bufferMap && pool.bufferMap[key] == id < |pool.buffers| == |pool.data|
      && pool.buffers[id].Key() == key && pool.buffers[id].state != Free && pool.buffers[id].refCount > 0
    }

    method FinishBack(key: Key, id: nat)
      requires Valid() && Referenced(key, id)
      modifies pool`buffers, pool`dirtyList, pool`freeList, pool`bufferMap
      ensures Valid() && pool.bufferMap == old(pool.bufferMap) && IsDirty(key) && pool.freeList == old(pool.freeList)
      ensures DirtyOffsets(pool.buffers) <= DirtyOffsets(old(pool.buffers)) + {key.1}
    {
      hide Partitioned, DirtyListed;
      pool.MarkDirty(id);
      var released := pool.Release(id);
    }

    method FinishThrough(key: Key, id: nat)
      requires Valid() && Referenced(key, id)
      modifies this`disk, pool`buffers, pool`dirtyList, pool`freeList, pool`bufferMap
      ensures Valid() && disk == if old(IsDirty(key)) then old(disk)[key.1 := pool.data[id]] else old(disk)
      ensures pool.bufferMap == if old(pool.buffers)[id].refCount == 1 then old(pool.bufferMap) - {key}
                    else old(pool.bufferMap)
      ensures pool.freeList == if old(pool.buffers)[id].refCount == 1 then old(pool.freeList) + [id]
                    else old(pool.freeList)
      ensures DirtyOffsets(pool.buffers) <= DirtyOffsets(old(pool.buffers))
    {
      hide Partitioned, Distinct;
      CleanOrDirty(pool.buffers, pool.dirtyList, id);
      var flushed := FlushBuffer(id);
      var released := pool.Release(id);
    }

    /**
     * Read a byte range: what is returned is what was cached, or else on disk, and is cached afterwards. Whatever
     * was cached before stays, and what is newly cached is the disk's.
     */
    method Read(file: nat, offset: nat, buffer: array<Byte>) returns (ok: bool)
      requires Valid()
      modifies pool`buffers, pool`freeList, pool`bufferMap, pool`data, buffer
      ensures Valid() && Extends(old(pool.bufferMap), old(pool.data), pool.bufferMap, pool.data)
      ensures SameView(old(pool.bufferMap), old(pool.data), pool.bufferMap, pool.data, disk)
      ensures ok ==> SeenAs(old(pool.bufferMap), old(pool.data), disk, file, offset, buffer[..])
      ensures ok ==> ReadsBack(pool.bufferMap, pool.data, file, offset, buffer[..])
      ensures ok <==> Unmapped(old(pool.bufferMap).Keys, file, offset / BUFFER_SIZE, EndBlock(offset, buffer.Length))
                      <= |old(pool.freeList)|
    {
      hide Partitioned, DirtyListed, Seen, SameView, SeenAs, ReadsBack, Extends, Drawn, Unmapped, EndBlock;
      var done := 0;
      ReadsNone(pool.bufferMap, pool.data, disk, file, offset, buffer[..0]);
      DrawnNone(pool.bufferMap.Keys, |pool.freeList|, file, offset);
      while done < buffer.Length
        invariant done <= buffer.Length && Valid() && (0 < done < buffer.Length ==> (offset + done) % BUFFER_SIZE == 0)
        invariant Drawn(old(pool.bufferMap).Keys, |old(pool.freeList)|, pool.bufferMap.Keys, |pool.freeList|, file,
                        offset, done)
        invariant Extends(old(pool.bufferMap), old(pool.data), pool.bufferMap, pool.data)
        invariant SameView(old(pool.bufferMap), old(pool.data), pool.bufferMap, pool.data, disk)
        invariant SeenAs(old(pool.bufferMap), old(pool.data), disk, file, offset, buffer[..done])
        invariant ReadsBack(pool.bufferMap, pool.data, file, offset, buffer[..done])
      {
        var o := (offset + done) % BUFFER_SIZE;
        var key := (file, offset + done - o);
        var n := Piece(offset + done, buffer.Length - done);
        ghost var table, data, bytes := pool.bufferMap, pool.data, buffer[..done];
        DrawnMore(old(pool.bufferMap).Keys, |old(pool.freeList)|, table.Keys, |pool.freeList|, file, offset, done, n,
                  buffer.Length);
        var r := ReadBlock(key);
        ViewTwice(old(pool.bufferMap), old(pool.data), table, data, pool.bufferMap, pool.data, disk, key);
        if r.None? {
          return false;
        }
        CopyOut(pool.data[r.value], o, n, buffer, done);
        ReadsKept(table, data, pool.bufferMap, pool.data, file, offset, bytes);
        ReadsMore(old(pool.bufferMap), old(pool.data), disk, pool.bufferMap, pool.data, file, offset, bytes, o, n);
        done := done + n;
      }
      assert buffer[..done] == buffer[..];
      DrawnEnough(old(pool.bufferMap).Keys, |old(pool.freeList)|, pool.bufferMap.Keys, |pool.freeList|, file, offset,
                  done);
      ghost var table, data := pool.bufferMap, pool.data;
      Readahead(file, offset);
      ViewTwice(old(pool.bufferMap), old(pool.data), table, data, pool.bufferMap, pool.data, disk, (file, offset));
      ReadsKept(table, data, pool.bufferMap, pool.data, file, offset, buffer[..]);
      return true;
    }

    /** Cache the sixteen blocks that follow, as far as there are free buffers. */
    method Readahead(file: nat, offset: nat)
      requires Valid()
      modifies pool`buffers, pool`freeList, pool`bufferMap, pool`data
      ensures Valid() && Extends(old(pool.bufferMap), old(pool.data), pool.bufferMap, pool.data)
      ensures SameView(old(pool.bufferMap), old(pool.data), pool.bufferMap, pool.data, disk)
      ensures forall n {:trigger (file, n) in pool.bufferMap} ::
                n % BUFFER_SIZE == 0 && offset < n <= offset + 16 * BUFFER_SIZE ==>
                  (file, n) in pool.bufferMap || pool.freeList == []
    {
      hide Partitioned, DirtyListed, Seen;
      for i := 0 to 16
        invariant Valid() && Extends(old(pool.bufferMap), old(pool.data), pool.bufferMap, pool.data)
        invariant SameView(old(pool.bufferMap), old(pool.data), pool.bufferMap, pool.data, disk)
        invariant forall j :: 0 <= j < i ==> Ahead(file, offset, j) in pool.bufferMap || pool.freeList == []
      {
        MappedInRange(pool.buffers, pool.freeList, pool.bufferMap);
        var r := ReadBlock(Ahead(file, offset, i));
      }
      forall n: nat | n % BUFFER_SIZE == 0 && offset < n <= offset + 16 * BUFFER_SIZE
        ensures (file, n) in pool.bufferMap || pool.freeList == []
      {
        AheadReaches(file, offset, n);
      }
    }

    /**
     * Write a byte range. Other cached blocks stay. In write-back mode a write that succeeds can be read back, and
     * the other bytes of blocks that were cached stay as well. The flush that may follow goes by offset alone, so it
     * can change a block of another file that is not cached.
     */
    method Write(file: nat, offset: nat, buffer: seq<Byte>) returns (ok: bool)
      requires Valid()
      modifies this`disk, pool
      ensures Valid()
      ensures writeMode == WriteBack ==>
                (ok <==> Unmapped(old(pool.bufferMap).Keys, file, offset / BUFFER_SIZE, EndBlock(offset, |buffer|))
                         <= |old(pool.freeList)|)
      ensures writeMode == WriteThrough && !ok ==> old(pool.freeList) == []
      ensures ok && writeMode == WriteBack ==> ReadsBack(pool.bufferMap, pool.data, file, offset, buffer)
      ensures KeepsOthers(old(pool.bufferMap), old(pool.data), pool.bufferMap, pool.data, file, offset, |buffer|)
      ensures writeMode == WriteBack ==>
                KeepsBytes(old(pool.bufferMap), old(pool.data), pool.bufferMap, pool.data, file, offset, |buffer|)
      ensures forall at: nat :: SameAt(old(disk), disk, at) || MayReach(old(pool.buffers), at, offset, |buffer|)
      ensures ReadsAsBefore(old(pool.bufferMap), old(pool.data), old(disk), pool.bufferMap, pool.data, disk,
                            old(pool.buffers), file, offset, |buffer|)
    {
      hide Partitioned, DirtyListed, KeepsOthers, KeepsBytes, ReadsBack, ReadsAsBefore, Spared, Drawn;
      ok := WriteBlocks(file, offset, buffer);
      if ok {
        CheckFlush(old(pool.bufferMap), old(pool.buffers), old(disk), file, offset, |buffer|);
      }
      MappedInRange(old(pool.buffers), old(pool.freeList), old(pool.bufferMap));
      SparedDisk(old(pool.bufferMap), old(pool.buffers), old(disk), pool.bufferMap, pool.buffers, disk, file, offset,
                 |buffer|);
      SparedReads(old(pool.bufferMap), old(pool.data), old(disk), pool.bufferMap, pool.data, disk,
                  old(pool.buffers), pool.buffers, file, offset, |buffer|);
    }

    /** The writes themselves, block by block. */
    method WriteBlocks(file: nat, offset: nat, buffer: seq<Byte>) returns (ok: bool)
      requires Valid()
      modifies this`disk, pool
      ensures Valid()
      ensures writeMode == WriteBack ==>
                (ok <==> Unmapped(old(pool.bufferMap).Keys, file, offset / BUFFER_SIZE, EndBlock(offset, |buffer|))
                         <= |old(pool.freeList)|)
      ensures writeMode == WriteThrough && !ok ==> old(pool.freeList) == []
      ensures ok && writeMode == WriteBack ==> ReadsBack(pool.bufferMap, pool.data, file, offset, buffer)
      ensures KeepsOthers(old(pool.bufferMap), old(pool.data), pool.bufferMap, pool.data, file, offset, |buffer|)
      ensures writeMode == WriteBack ==>
                KeepsBytes(old(pool.bufferMap), old(pool.data), pool.bufferMap, pool.data, file, offset, |buffer|)
      ensures Spared(old(pool.bufferMap), old(pool.buffers), old(disk), pool.bufferMap, pool.buffers, disk, file,
                     offset, |buffer|)
    {
      hide Partitioned, DirtyListed, KeepsOthers, KeepsBytes, ReadsBack, ExtendsBut, Written, Spared, Drawn;
      hide DirtyOffsets;
      var done := 0;
      KeepsAll(pool.bufferMap, pool.data, file, offset, buffer[..0]);
      SparedAll(pool.bufferMap, pool.buffers, disk, file, offset);
      DrawnNone(pool.bufferMap.Keys, |pool.freeList|, file, offset);
      while done < |buffer|
        invariant done <= |buffer| && Valid()
        invariant done == |buffer| || done == 0 || (offset + done) % BUFFER_SIZE == 0
        invariant KeepsOthers(old(pool.bufferMap), old(pool.data), pool.bufferMap, pool.data, file, offset, done)
        invariant writeMode == WriteBack ==> ReadsBack(pool.bufferMap, pool.data, file, offset, buffer[..done])
        invariant writeMode == WriteBack ==>
                    KeepsBytes(old(pool.bufferMap), old(pool.data), pool.bufferMap, pool.data, file, offset, done)
        invariant Spared(old(pool.bufferMap), old(pool.buffers), old(disk), pool.bufferMap, pool.buffers, disk, file,
                         offset, done)
        invariant if writeMode == WriteThrough then |pool.freeList| >= |old(pool.freeList)|
                  else Drawn(old(pool.bufferMap).Keys, |old(pool.freeList)|, pool.bufferMap.Keys, |pool.freeList|,
                             file, offset, done)
      {
        var o := (offset + done) % BUFFER_SIZE;
        var key := (file, offset + done - o);
        var n := Piece(offset + done, |buffer| - done);
        ghost var table, buffers, data, diskBefore := pool.bufferMap, pool.buffers, pool.data, disk;
        ghost var slot := Slot(pool.bufferMap, pool.freeList, key);
        if writeMode == WriteBack {
          DrawnMore(old(pool.bufferMap).Keys, |old(pool.freeList)|, pool.bufferMap.Keys, |pool.freeList|, file, offset,
                    done, n,
                    |buffer|);
        }
        var written := WriteBlock(key, o, buffer[done..done + n]);
        if !written {
          KeepsLess(old(pool.bufferMap), old(pool.data), pool.bufferMap, pool.data, file, offset, done, |buffer|);
          SparedLess(old(pool.bufferMap), old(pool.buffers), old(disk), pool.bufferMap, pool.buffers, disk,
                     file, offset, done, |buffer|);
          return false;
        }
        KeepsMoreBlocks(old(pool.bufferMap), old(pool.data), table, data, pool.bufferMap, pool.data, file, offset,
                        done, n, o);
        SparedMore(old(pool.bufferMap), old(pool.buffers), old(disk), table, buffers, diskBefore,
                   pool.bufferMap, pool.buffers, disk, file, offset, done, n, o);
        if writeMode == WriteBack {
          KeepsMoreBytes(old(pool.bufferMap), old(pool.data), table, data, pool.bufferMap, pool.data, file, offset,
                         done, n, o,
                         slot, buffer);
          ReadsBackMore(table, data, pool.bufferMap, pool.data, file, offset, done, n, o, slot, buffer);
          assert pool.bufferMap.Keys == table.Keys + {key};
        }
        done := done + n;
      }
      assert buffer[..done] == buffer;
      if writeMode == WriteBack {
        DrawnEnough(old(pool.bufferMap).Keys, |old(pool.freeList)|, pool.bufferMap.Keys, |pool.freeList|, file, offset,
                    done);
      }
      return true;
    }

    /** The flush at the end of a write reaches only offsets the write may reach. */
    method CheckFlush(ghost table: map<Key, nat>, ghost buffers: Buffers, ghost start: map<nat, Page>,
                      ghost file: nat, ghost offset: nat, ghost count: nat)
      requires Valid() && Spared(table, buffers, start, pool.bufferMap, pool.buffers, disk, file, offset, count)
      modifies this`disk, pool`buffers, pool`dirtyList
      ensures Valid() && Spared(table, buffers, start, pool.bufferMap, pool.buffers, disk, file, offset, count)
    {
      hide Partitioned, Spared, Flushed, Cleaned;
      CheckFlushThreshold();
      if pool.buffers != old(pool.buffers) || disk != old(disk) {
        SparedFlush(table, buffers, start, pool.bufferMap, old(pool.buffers), old(disk), pool.data,
                    Members(old(pool.dirtyList)), disk, file, offset, count);
      }
    }

    /** Flush everything if at least four fifths of the mapped buffers are dirty, and else do nothing. */
    method CheckFlushThreshold()
      requires Valid()
      modifies this`disk, pool`buffers, pool`dirtyList
      ensures Valid()
      ensures FlushDue(|old(pool.dirtyList)|, |pool.bufferMap|) ==>
                && pool.dirtyList == [] && pool.buffers == Cleaned(old(pool.buffers), Members(old(pool.dirtyList)))
                && Flushed(old(pool.buffers), pool.data, Members(old(pool.dirtyList)), old(disk), disk)
      ensures !FlushDue(|old(pool.dirtyList)|, |pool.bufferMap|) ==>
                disk == old(disk) && pool.buffers == old(pool.buffers) && pool.dirtyList == old(pool.dirtyList)
    {
      hide Partitioned, DirtyListed, Flushed, Cleaned;
      var total, dirty := |pool.bufferMap|, |pool.dirtyList|;
      if total > 0 {
        QuotientReaches(dirty * 100, total, DIRTY_THRESHOLD);
      }
      if total > 0 && dirty * 100 / total >= DIRTY_THRESHOLD {
        var flushed := FlushAll();
      }
    }

    ghost predicate IsDirty(key: Key)
      reads pool
    {
      key in pool.bufferMap && pool.bufferMap[key] < |pool.buffers| && pool.buffers[pool.bufferMap[key]].state == Dirty
    }
  }

  /** A write-through write to a block that is not mapped is lost: neither cached nor on disk. */
  method WriteThroughLost() returns (manager: BufferManager, ok: bool)
    ensures fresh(manager) && manager.Valid() && manager.writeMode == WriteThrough && ok
    ensures SeenByte(manager.pool.bufferMap, manager.pool.data, manager.disk, 1, 0) == 0
  {
    manager := new BufferManager(WriteThrough, map[]);
    ok := manager.WriteBlock((1, 0), 0, [9]);
  }

  lemma FlushedOne(buffers: Buffers, data: seq<Page>, ids: set<nat>, disk: map<nat, Page>, disk': map<nat, Page>,
                   id: nat)
    requires Flushed(buffers, data, ids, disk, disk') && ids == {id} && id < |buffers|
    ensures id < |data| && DiskPage(disk', buffers[id].offset) == data[id]
  {
    assert StandsAt(buffers, id, buffers[id].offset);
    assert FlushedAt(buffers, data, ids, disk, disk', buffers[id].offset);
  }

  /** A byte written for one file and flushed is read for another, whose block at that offset is not cached. */
  method FlushClobbers() returns (manager: BufferManager, ghost before: Byte, after: Byte, ok: bool)
    ensures fresh(manager) && manager.Valid() && before == 7 && ok && after == 9
  {
    hide Partitioned, DirtyListed, Flushed, Cleaned, Overwrite, SameView, Extends, ExtendsBut, Unmapped;
    manager := new BufferManager(WriteBack, map[0 := Repeat(7, BUFFER_SIZE)]);
    before := SeenByte(manager.pool.bufferMap, manager.pool.data, manager.disk, 1, 0);
    ghost var data := manager.pool.data;
    var written := manager.WriteBlock((2, 0), 0, [9]);
    ghost var slot, disk := manager.pool.bufferMap[(2, 0)], manager.disk;
    ghost var buffers, dirty := manager.pool.buffers, manager.pool.dirtyList;
    assert manager.pool.bufferMap.Keys == {(2, 0)};
    OneDirty(buffers, manager.pool.freeList, manager.pool.bufferMap, dirty, (2, 0));
    OverwriteFirst(data[slot], 9);
    manager.CheckFlushThreshold();
    FlushedOne(buffers, manager.pool.data, Members(dirty), disk, manager.disk, slot);
    OneUnmapped(manager.pool.bufferMap.Keys, 1);
    var buffer := new Byte[1](_ => 0);
    ok := manager.Read(1, 0, buffer);
    assert buffer[..][0] == buffer[0];
    after := buffer[0];
  }

  lemma OverwriteFirst(page: seq<Byte>, b: Byte)
    requires page != []
    ensures Overwrite(page, 0, [b])[0] == b
  {
  }

  lemma OneUnmapped(keys: set<Key>, file: nat)
    ensures Unmapped(keys, file, 0, 1) <= 1
  {
    assert Unmapped(keys, file, 0, 0) == 0;
  }

  lemma OneDirty(buffers: Buffers, free: seq<nat>, table: map<Key, nat>, dirty: seq<nat>, key: Key)
    requires Partitioned(buffers, free, table) && DirtyListed(buffers, dirty) && table.Keys == {key}
    requires table[key] < |buffers| && buffers[table[key]].state == Dirty
    ensures dirty == [table[key]] && |table| == 1 && buffers[table[key]].Key() == key
  {
    assert |table.Keys| == 1;
    assert table[key] in dirty;
    assert forall id :: id in dirty ==> buffers[id].Key() in table.Keys;
    FirstListed(dirty);
    FirstListed(dirty[1..]);
    DistinctFirst(dirty);
    assert forall id :: id in dirty[1..] ==> id in dirty;
  }
}
