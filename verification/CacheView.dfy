/** What a client of the block cache sees: cached data where there is some, the disk elsewhere. */
module CacheView {
  import opened ByteRanges
  import opened Bytes
  import opened CacheState
  import opened CacheInvariant

  type Disk = map<nat, Data>

  /** Which file uses a block number. The disk offset of a block ignores the file, so files must not share blocks. */
  type Owner = imap<nat, nat>

  type Store = imap<nat, Data>

  function DiskRead(disk: Disk, n: nat): Data {
    if n in disk then disk[n] else ZERO_PAGE
  }

  /** The block number belongs to the file it is cached for; read-ahead may cache a foreign one too. */
  ghost predicate Mine(owner: Owner, key: Key) {
    key.1 in owner && owner[key.1] == key.0
  }

  /** Dirty cached blocks belong to the file they are cached for. */
  ghost predicate Owned(blocks: Blocks, table: Table, owner: Owner) {
    forall key :: key in table && table[key] < |blocks| && blocks[table[key]].IsDirty() ==> Mine(owner, key)
  }

  /** Clean cached data of a file's own block equals the disk, except possibly in slot `hole`. */
  ghost predicate CleanOnDisk(blocks: Blocks, data: seq<Data>, table: Table, disk: Disk, owner: Owner, hole: int) {
    && |data| == |blocks|
    && (forall key :: key in table ==>
          && table[key] < |blocks|
          && (Mine(owner, key) && table[key] != hole && !blocks[table[key]].IsDirty() ==>
                data[table[key]] == DiskRead(disk, key.1)))
  }

  ghost function View(data: seq<Data>, table: Table, disk: Disk, owner: Owner, n: nat): Data {
    if n in owner && (owner[n], n) in table && table[(owner[n], n)] < |data| then data[table[(owner[n], n)]]
    else DiskRead(disk, n)
  }

  ghost function Views(data: seq<Data>, table: Table, disk: Disk, owner: Owner): Store {
    imap n: nat | true :: View(data, table, disk, owner, n)
  }

  lemma MissedView(data: seq<Data>, table: Table, disk: Disk, owner: Owner, key: Key)
    requires Mine(owner, key) && key !in table
    ensures Views(data, table, disk, owner)[key.1] == DiskRead(disk, key.1)
  {
  }

  /** Writing a dirty block back changes nothing that clients see. */
  lemma FlushView(blocks: Blocks, data: seq<Data>, table: Table, disk: Disk, owner: Owner, order: seq<nat>, i: nat,
                  hole: int)
    requires Indexed(blocks, table, order) && Owned(blocks, table, owner)
          && CleanOnDisk(blocks, data, table, disk, owner, hole)
    requires i in order && blocks[i].IsDirty() && i < |data|
    ensures var disk', after := disk[blocks[i].blockNumber := data[i]], blocks[i := blocks[i].(state := Clean)];
            && Owned(after, table, owner)
            && CleanOnDisk(after, data, table, disk', owner, hole)
            && Views(data, table, disk', owner) == Views(data, table, disk, owner)
  {
    assert table[blocks[i].Key()] == i;
    assert Mine(owner, blocks[i].Key());
  }

  /** Which blocks are dirty is all that matters of them. */
  lemma CleanSame(before: Blocks, after: Blocks, data: seq<Data>, table: Table, disk: Disk, owner: Owner)
    requires Owned(before, table, owner) && CleanOnDisk(before, data, table, disk, owner, -1)
          && SameContents(before, after)
    ensures Owned(after, table, owner) && CleanOnDisk(after, data, table, disk, owner, -1)
  {
  }

  /** Leaving out a slot is idle where nothing is left out, or where the slot is dirty. */
  lemma HoleMoves(blocks: Blocks, data: seq<Data>, table: Table, disk: Disk, owner: Owner, hole: int, hole': int)
    requires CleanOnDisk(blocks, data, table, disk, owner, hole)
    requires hole == -1 || (0 <= hole < |blocks| && blocks[hole].IsDirty())
    ensures CleanOnDisk(blocks, data, table, disk, owner, hole')
  {
  }

  /** A clean slot that was left out is in step exactly if it holds what the disk holds. */
  lemma HoleFilled(blocks: Blocks, data: seq<Data>, table: Table, disk: Disk, owner: Owner, order: seq<nat>, i: nat)
    requires Indexed(blocks, table, order) && i in order && CleanOnDisk(blocks, data, table, disk, owner, i)
    requires !blocks[i].IsDirty() && Mine(owner, blocks[i].Key())
    ensures CleanOnDisk(blocks, data, table, disk, owner, -1) <==> data[i] == DiskRead(disk, blocks[i].blockNumber)
  {
    forall key | key in table && table[key] == i
      ensures key == blocks[i].Key()
    {
    }
  }

  lemma PinView(before: Blocks, after: Blocks, data: seq<Data>, table: Table, disk: Disk, owner: Owner)
    requires |after| == |before| && forall i :: 0 <= i < |before| ==> after[i].state == before[i].state
    ensures Owned(after, table, owner) <==> Owned(before, table, owner)
    ensures forall hole ::
              CleanOnDisk(after, data, table, disk, owner, hole) <==>
                  CleanOnDisk(before, data, table, disk, owner, hole)
  {
  }

  /** Once nothing is dirty the disk holds everything. */
  lemma CleanStoreOnDisk(blocks: Blocks, data: seq<Data>, table: Table, disk: Disk, owner: Owner)
    requires CleanOnDisk(blocks, data, table, disk, owner, -1)
    requires forall i :: 0 <= i < |blocks| ==> !blocks[i].IsDirty()
    ensures forall n: nat :: DiskRead(disk, n) == Views(data, table, disk, owner)[n]
  {
    forall n: nat
      ensures View(data, table, disk, owner, n) == DiskRead(disk, n)
    {
      if n in owner {
        assert Mine(owner, (owner[n], n));
      }
    }
  }

  /** Dropping a clean block changes nothing that clients see. */
  lemma RemoveView(blocks: Blocks, after: Blocks, data: seq<Data>, table: Table, disk: Disk, owner: Owner,
                   order: seq<nat>, i: nat)
    requires Indexed(blocks, table, order) && Owned(blocks, table, owner)
          && CleanOnDisk(blocks, data, table, disk, owner, -1)
    requires i in order && !blocks[i].IsDirty() && SameButLinks(blocks, after)
    ensures var table' := table - {blocks[i].Key()};
            && Owned(after, table', owner)
            && CleanOnDisk(after, data, table', disk, owner, -1)
            && Views(data, table', disk, owner) == Views(data, table, disk, owner)
  {
    var table' := table - {blocks[i].Key()};
    assert table[blocks[i].Key()] == i;
    forall n: nat
      ensures View(data, table', disk, owner, n) == View(data, table, disk, owner, n)
    {
      if n in owner {
        assert Mine(owner, (owner[n], n));
      }
    }
  }

  /**
   * A new block, which holds what its slot held before, changes the view of its own number only, if it is its file's.
   */
  lemma InsertView(blocks: Blocks, after: Blocks, data: seq<Data>, table: Table, disk: Disk, owner: Owner,
                   order: seq<nat>, i: nat)
    requires Indexed(blocks, table, order) && Owned(blocks, table, owner)
          && CleanOnDisk(blocks, data, table, disk, owner, -1)
    requires i !in order && i < |blocks| && blocks[i].Key() !in table && !blocks[i].IsDirty()
    requires SameButLinks(blocks, after)
    ensures Owned(after, table[blocks[i].Key() := i], owner)
    ensures CleanOnDisk(after, data, table[blocks[i].Key() := i], disk, owner, i)
    ensures Views(data, table[blocks[i].Key() := i], disk, owner)
         == Shown(Views(data, table, disk, owner), owner, blocks[i].Key(), data[i])
  {
    hide Views, Shown;
    var key := blocks[i].Key();
    InsertedView(data, table, disk, owner, key, i);
  }

  lemma InsertedView(data: seq<Data>, table: Table, disk: Disk, owner: Owner, key: Key, i: nat)
    requires i < |data|
    ensures Views(data, table[key := i], disk, owner) == Shown(Views(data, table, disk, owner), owner, key, data[i])
  {
    forall n: nat
      ensures View(data, table[key := i], disk, owner, n)
           == if Mine(owner, key) && n == key.1 then data[i] else View(data, table, disk, owner, n)
    {
    }
  }

  /** The store with a block's contents replaced, if the block is its file's. */
  ghost function Shown(store: Store, owner: Owner, key: Key, d: Data): Store {
    if Mine(owner, key) then store[key.1 := d] else store
  }

  /** What an unlisted slot is labelled does not matter. */
  lemma ResetView(blocks: Blocks, after: Blocks, data: seq<Data>, table: Table, disk: Disk, owner: Owner,
                  order: seq<nat>, i: nat)
    requires Indexed(blocks, table, order) && Owned(blocks, table, owner)
          && CleanOnDisk(blocks, data, table, disk, owner, -1)
    requires i !in order && |after| == |blocks| && forall x :: 0 <= x < |blocks| && x != i ==> after[x] == blocks[x]
    ensures Owned(after, table, owner) && CleanOnDisk(after, data, table, disk, owner, -1)
  {
  }

  /** Replacing the data of a cached block changes the view of its own number only. */
  lemma StoreView(blocks: Blocks, data: seq<Data>, table: Table, disk: Disk, owner: Owner, order: seq<nat>, i: nat,
                  d: Data)
    requires Indexed(blocks, table, order) && i in order && |data| == |blocks|
    ensures Views(data[i := d], table, disk, owner) == Shown(Views(data, table, disk, owner), owner, blocks[i].Key(), d)
  {
    var key := blocks[i].Key();
    forall n: nat
      ensures View(data[i := d], table, disk, owner, n)
           == if Mine(owner, key) && n == key.1 then d else View(data, table, disk, owner, n)
    {
      assert table[key] == i;
      if n in owner && (owner[n], n) in table && (owner[n], n) != key {
        assert blocks[table[(owner[n], n)]].Key() == (owner[n], n);
      }
    }
  }

  /** With the slot filled from the disk, or marked dirty, the data is in step again. */
  lemma FillHole(blocks: Blocks, after: Blocks, data: seq<Data>, table: Table, disk: Disk, owner: Owner,
                 order: seq<nat>, i: nat, d: Data, hole: int)
    requires Indexed(blocks, table, order) && i in order
    requires Owned(blocks, table, owner) && CleanOnDisk(blocks, data, table, disk, owner, hole)
    requires hole == -1 || hole == i
    requires |after| == |blocks| && forall x :: 0 <= x < |blocks| && x != i ==>
              after[x].IsDirty() == blocks[x].IsDirty()
    requires if after[i].IsDirty() then Mine(owner, blocks[i].Key()) else d == DiskRead(disk, blocks[i].blockNumber)
    ensures Owned(after, table, owner) && CleanOnDisk(after, data[i := d], table, disk, owner, -1)
  {
    forall key | key in table && table[key] == i
      ensures key == blocks[i].Key()
    {
    }
  }

  // ---- The store as bytes ----

  /** Byte `p` of the store. */
  ghost function ByteAt(store: Store, p: nat): Byte
    requires Full(store)
  {
    store[p / CACHE_BLOCK_SIZE].bytes[p % CACHE_BLOCK_SIZE]
  }

  ghost predicate Full(store: Store) {
    forall n: nat :: n in store
  }

  /** `after` is `before` with `bytes` written at `offset`. */
  ghost predicate Wrote(before: Store, after: Store, offset: nat, bytes: seq<Byte>)
    requires Full(before) && Full(after)
  {
    forall p: nat :: ByteAt(after, p) == if offset <= p < offset + |bytes| then bytes[p - offset] else ByteAt(before, p)
  }

  /** The bytes of the store from `offset` on. */
  ghost predicate ReadsAs(store: Store, offset: nat, bytes: seq<Byte>)
    requires Full(store)
  {
    forall j :: 0 <= j < |bytes| ==> bytes[j] == ByteAt(store, offset + j)
  }

  /** A page with some bytes replaced. */
  function Splice(page: Data, offset: nat, bytes: seq<Byte>): Data
    requires offset + |bytes| <= CACHE_BLOCK_SIZE
  {
    Page(Overwrite(page.bytes, offset, bytes))
  }

  /** Splicing into one page writes the bytes at the page's place in the store. */
  lemma SpliceWrites(before: Store, n: nat, offset: nat, bytes: seq<Byte>)
    requires Full(before) && offset + |bytes| <= CACHE_BLOCK_SIZE
    ensures Wrote(before, before[n := Splice(before[n], offset, bytes)], n * CACHE_BLOCK_SIZE + offset, bytes)
  {
    var page := before[n];
    var spliced := Splice(page, offset, bytes).bytes;
    forall p: nat
      ensures ByteAt(before[n := Splice(page, offset, bytes)], p)
           == if n * CACHE_BLOCK_SIZE + offset <= p < n * CACHE_BLOCK_SIZE + offset + |bytes|
              then bytes[p - (n * CACHE_BLOCK_SIZE + offset)] else ByteAt(before, p)
    {
      var j := p % CACHE_BLOCK_SIZE;
      if p / CACHE_BLOCK_SIZE == n {
        assert p == n * CACHE_BLOCK_SIZE + j;
        assert spliced[j] == if offset <= j < offset + |bytes| then bytes[j - offset] else page.bytes[j];
      }
    }
  }

  /** Writing one piece after another is writing both at once. */
  lemma WroteTwice(a: Store, b: Store, c: Store, offset: nat, x: seq<Byte>, y: seq<Byte>)
    requires Full(a) && Full(b) && Full(c)
    requires Wrote(a, b, offset, x) && Wrote(b, c, offset + |x|, y)
    ensures Wrote(a, c, offset, x + y)
  {
    forall p: nat
      ensures ByteAt(c, p) == if offset <= p < offset + |x + y| then (x + y)[p - offset] else ByteAt(a, p)
    {
      assert ByteAt(b, p) == if offset <= p < offset + |x| then x[p - offset] else ByteAt(a, p);
    }
  }

  // ---- Byte ranges ----

  /** The file owns the blocks of a byte range. */
  ghost predicate OwnsRange(owner: Owner, file: nat, offset: nat, count: nat) {
    forall n: nat :: offset / CACHE_BLOCK_SIZE <= n < EndBlock(offset, count) ==> Mine(owner, (file, n))
  }

  /** Every block of a byte range is among the keys. */
  ghost predicate AllCached(keys: set<Key>, file: nat, offset: nat, count: nat) {
    forall n: nat :: offset / CACHE_BLOCK_SIZE <= n < EndBlock(offset, count) ==> (file, n) in keys
  }

  /**
   * The first block of the range that is not among the keys begins after `done` bytes of it, or holds its first byte.
   */
  ghost predicate StopsAt(keys: set<Key>, file: nat, offset: nat, done: nat) {
    && AllCached(keys, file, offset, done) && (file, (offset + done) / CACHE_BLOCK_SIZE) !in keys
    && (done > 0 ==> (offset + done) % CACHE_BLOCK_SIZE == 0)
  }

  lemma OwnsBlock(owner: Owner, file: nat, offset: nat, count: nat, done: nat)
    requires OwnsRange(owner, file, offset, count) && done < count
    ensures Mine(owner, (file, (offset + done) / CACHE_BLOCK_SIZE))
  {
  }

  lemma CachedNone(keys: set<Key>, file: nat, offset: nat)
    ensures AllCached(keys, file, offset, 0)
  {
  }

  /** One more block of the range decides on the range so far, and a missing one on all of it. */
  lemma CachedMore(keys: set<Key>, file: nat, offset: nat, done: nat, more: nat, count: nat)
    requires AllCached(keys, file, offset, done) && 0 < more && done + more <= count
    requires (offset + done) % CACHE_BLOCK_SIZE + more <= CACHE_BLOCK_SIZE
    requires done > 0 ==> (offset + done) % CACHE_BLOCK_SIZE == 0
    ensures (file, (offset + done) / CACHE_BLOCK_SIZE) in keys ==> AllCached(keys, file, offset, done + more)
    ensures (file, (offset + done) / CACHE_BLOCK_SIZE) !in keys ==> !AllCached(keys, file, offset, count)
  {
    var n := (offset + done) / CACHE_BLOCK_SIZE;
    assert EndBlock(offset, done) <= n && EndBlock(offset, done + more) == n + 1;
    assert offset / CACHE_BLOCK_SIZE <= n < EndBlock(offset, count);
    if done > 0 {
      assert EndBlock(offset, done) == n;
    }
  }

  lemma ReadsNothing(store: Store, offset: nat, bytes: seq<Byte>)
    requires Full(store) && bytes == []
    ensures ReadsAs(store, offset, bytes)
  {
  }

  lemma ReadsMore(store: Store, offset: nat, bytes: seq<Byte>, n: nat, o: nat, count: nat)
    requires Full(store) && ReadsAs(store, offset, bytes)
    requires n == (offset + |bytes|) / CACHE_BLOCK_SIZE && o == (offset + |bytes|) % CACHE_BLOCK_SIZE
    requires o + count <= CACHE_BLOCK_SIZE
    ensures ReadsAs(store, offset, bytes + store[n].bytes[o..o + count])
  {
    var more := bytes + store[n].bytes[o..o + count];
    forall j | 0 <= j < |more|
      ensures more[j] == ByteAt(store, offset + j)
    {
      if j >= |bytes| {
        PlaceOf(n, o + (j - |bytes|));
      }
    }
  }

  lemma PlaceOf(n: nat, o: nat)
    requires o < CACHE_BLOCK_SIZE
    ensures (n * CACHE_BLOCK_SIZE + o) / CACHE_BLOCK_SIZE == n && (n * CACHE_BLOCK_SIZE + o) % CACHE_BLOCK_SIZE == o
  {
  }

  /** The store after writing into one block: over its old contents on a hit, over the slot's leftovers on a miss. */
  ghost function WrittenStore(store: Store, slots: seq<Data>, key: Key, i: nat, hit: bool, offset: nat,
                              bytes: seq<Byte>): Store
    requires i < |slots| && key.1 in store && offset + |bytes| <= CACHE_BLOCK_SIZE
  {
    store[key.1 := Splice(if hit then store[key.1] else slots[i], offset, bytes)]
  }

  /** How many of the file's blocks from `lo` to `hi` are not among the keys. */
  function Missing(keys: set<Key>, file: nat, lo: nat, hi: nat): nat {
    if hi <= lo then 0 else Missing(keys, file, lo, hi - 1) + if (file, hi - 1) in keys then 0 else 1
  }

  /**
   * A first block written in part is cached, and so is a last one that the free slots suffice to reach
   * without an eviction.
   */
  predicate Covers(keys: set<Key>, used: nat, file: nat, offset: nat, count: nat) {
    var first, last := offset / CACHE_BLOCK_SIZE, (offset + count) / CACHE_BLOCK_SIZE;
    && (offset % CACHE_BLOCK_SIZE == 0 || (file, first) in keys)
    && ((offset + count) % CACHE_BLOCK_SIZE == 0
        || ((file, last) in keys && used + Missing(keys, file, first, last) <= MAX_CACHE_BLOCKS))
  }

  /** With `done` bytes of the range written: if no eviction is needed to reach the last block, there was none. */
  ghost predicate Fits(start: set<Key>, used: nat, keys: set<Key>, used': nat, file: nat, offset: nat, count: nat,
                       done: nat)
  {
    var first, last, next := offset / CACHE_BLOCK_SIZE, (offset + count) / CACHE_BLOCK_SIZE, EndBlock(offset, done);
    next <= last && used + Missing(start, file, first, last) <= MAX_CACHE_BLOCKS ==>
      start <= keys && used' <= used + Missing(start, file, first, next)
  }

  lemma FitsNone(keys: set<Key>, used: nat, file: nat, offset: nat, count: nat)
    ensures Fits(keys, used, keys, used, file, offset, count, 0)
  {
  }

  lemma {:induction false} MissingGrows(keys: set<Key>, file: nat, lo: nat, mid: nat, hi: nat)
    requires mid <= hi
    ensures Missing(keys, file, lo, mid) <= Missing(keys, file, lo, hi)
    decreases hi - mid
  {
    if mid < hi {
      MissingGrows(keys, file, lo, mid, hi - 1);
    }
  }

  lemma FitsMore(start: set<Key>, used: nat, keys: set<Key>, used': nat, file: nat, offset: nat, count: nat, done: nat,
                 more: nat, after: set<Key>, used'': nat)
    requires Fits(start, used, keys, used', file, offset, count, done)
    requires 0 < more && done + more <= count && (offset + done) % CACHE_BLOCK_SIZE + more <= CACHE_BLOCK_SIZE
    requires done > 0 ==> (offset + done) % CACHE_BLOCK_SIZE == 0
    requires (file, (offset + done) / CACHE_BLOCK_SIZE) in keys ==> after == keys && used'' == used'
    requires (file, (offset + done) / CACHE_BLOCK_SIZE) !in keys && used' < MAX_CACHE_BLOCKS ==>
               after == keys + {(file, (offset + done) / CACHE_BLOCK_SIZE)} && used'' == used' + 1
    ensures Fits(start, used, after, used'', file, offset, count, done + more)
  {
    var n, first := (offset + done) / CACHE_BLOCK_SIZE, offset / CACHE_BLOCK_SIZE;
    var last := (offset + count) / CACHE_BLOCK_SIZE;
    assert EndBlock(offset, done) == n && EndBlock(offset, done + more) == n + 1;
    if n + 1 <= last {
      MissingGrows(start, file, first, n + 1, last);
    }
  }

  lemma WholeOrHit(start: set<Key>, used: nat, keys: set<Key>, used': nat, file: nat, offset: nat, count: nat,
                   done: nat)
    requires done < count && Covers(start, used, file, offset, count)
    requires Fits(start, used, keys, used', file, offset, count, done) && (done == 0 ==> keys == start)
    requires done > 0 ==> (offset + done) % CACHE_BLOCK_SIZE == 0
    ensures (file, (offset + done) / CACHE_BLOCK_SIZE) in keys
         || ((offset + done) % CACHE_BLOCK_SIZE == 0 && count - done >= CACHE_BLOCK_SIZE)
  {
    var n := (offset + done) / CACHE_BLOCK_SIZE;
    assert EndBlock(offset, done) == n;
  }

  /** The bytes are in the store, and blocks that hold none of them are as before. */
  ghost predicate Patched(before: Store, after: Store, offset: nat, bytes: seq<Byte>)
    requires Full(before) && Full(after)
  {
    && ReadsAs(after, offset, bytes)
    && forall n: nat :: (n < offset / CACHE_BLOCK_SIZE || n * CACHE_BLOCK_SIZE >= offset + |bytes|) ==>
        after[n] == before[n]
  }

  lemma WroteNothing(store: Store, offset: nat, bytes: seq<Byte>)
    requires Full(store) && bytes == []
    ensures Patched(store, store, offset, bytes) && Wrote(store, store, offset, bytes)
  {
  }

  /** What writing one more block adds. */
  lemma WritesMore(start: Store, before: Store, slots: seq<Data>, key: Key, i: nat, hit: bool, o: nat,
                   offset: nat, buffer: seq<Byte>, done: nat, count: nat, after: Store, covered: bool)
    requires Full(start) && Full(before) && Full(after) && i < |slots|
    requires 0 < count && done + count <= |buffer| && o + count <= CACHE_BLOCK_SIZE
    requires key.1 == (offset + done) / CACHE_BLOCK_SIZE && o == (offset + done) % CACHE_BLOCK_SIZE
    requires done > 0 ==> o == 0
    requires after == WrittenStore(before, slots, key, i, hit, o, buffer[done..done + count])
    requires Patched(start, before, offset, buffer[..done])
    requires covered ==> (hit || count == CACHE_BLOCK_SIZE) && Wrote(start, before, offset, buffer[..done])
    ensures Patched(start, after, offset, buffer[..done + count])
    ensures covered ==> Wrote(start, after, offset, buffer[..done + count])
  {
    hide Patched, Wrote, WrittenStore;
    PatchesMore(start, before, slots, key, i, hit, o, offset, buffer, done, count);
    if covered {
      MissWrites(before, slots, key, i, hit, o, buffer[done..done + count]);
      assert buffer[..done] + buffer[done..done + count] == buffer[..done + count];
      WroteTwice(start, before, after, offset, buffer[..done], buffer[done..done + count]);
    }
  }

  lemma PatchesMore(start: Store, before: Store, slots: seq<Data>, key: Key, i: nat, hit: bool, o: nat,
                    offset: nat, buffer: seq<Byte>, done: nat, count: nat)
    requires Full(start) && Full(before) && i < |slots|
    requires 0 < count && done + count <= |buffer| && o + count <= CACHE_BLOCK_SIZE
    requires key.1 == (offset + done) / CACHE_BLOCK_SIZE && o == (offset + done) % CACHE_BLOCK_SIZE
    requires done > 0 ==> o == 0
    requires Patched(start, before, offset, buffer[..done])
    ensures Patched(start, WrittenStore(before, slots, key, i, hit, o, buffer[done..done + count]), offset,
                    buffer[..done + count])
  {
  }

  /**
   * Writing part of a block is a plain write exactly when the block was cached or the slot taken for it
   * happened to hold the right bytes around the written ones.
   */
  lemma MissWrites(store: Store, slots: seq<Data>, key: Key, i: nat, hit: bool, o: nat, bytes: seq<Byte>)
    requires Full(store) && i < |slots| && o + |bytes| <= CACHE_BLOCK_SIZE
    ensures Wrote(store, WrittenStore(store, slots, key, i, hit, o, bytes), key.1 * CACHE_BLOCK_SIZE + o, bytes) <==>
              hit || forall j :: 0 <= j < CACHE_BLOCK_SIZE && !(o <= j < o + |bytes|) ==>
                  slots[i].bytes[j] == store[key.1].bytes[j]
  {
    var page := if hit then store[key.1] else slots[i];
    if forall j :: 0 <= j < CACHE_BLOCK_SIZE && !(o <= j < o + |bytes|) ==> page.bytes[j] == store[key.1].bytes[j] {
      assert Splice(page, o, bytes).bytes == Splice(store[key.1], o, bytes).bytes;
      SpliceWrites(store, key.1, o, bytes);
    } else {
      var j :| 0 <= j < CACHE_BLOCK_SIZE && !(o <= j < o + |bytes|) && page.bytes[j] != store[key.1].bytes[j];
      PlaceOf(key.1, j);
      var p := key.1 * CACHE_BLOCK_SIZE + j;
      assert Splice(page, o, bytes).bytes[j] == page.bytes[j];
      assert ByteAt(WrittenStore(store, slots, key, i, hit, o, bytes), p) != ByteAt(store, p);
    }
  }
}
