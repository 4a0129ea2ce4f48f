/** The size-bounded LRU cache of `fs/cache_complete.rs`. */
module FileCache {
  import opened Bytes
  import opened Lists
  import opened Wrappers

  datatype FileCacheKey = FileCacheKey(volumeId: nat, fileId: nat, offset: nat)

  type Data = seq<Byte>

  datatype CacheEntry = CacheEntry(data: Data, dirty: bool, accessCount: nat)

  type Entries = map<FileCacheKey, CacheEntry>
  type Keys = seq<FileCacheKey>

  // ---- Lists of keys ----

  /** Each key was used earlier than those after it. */
  ghost predicate ByUse(list: Keys, use: map<FileCacheKey, nat>) {
    list == [] ||
    (&& list[0] in use
     && (forall k :: k in list[1..] ==> k in use && use[list[0]] < use[k])
     && ByUse(list[1..], use))
  }

  ghost function SizeOf(list: Keys, entries: Entries): nat {
    if list == [] then 0
    else (if list[0] in entries then |entries[list[0]].data| else 0) + SizeOf(list[1..], entries)
  }

  lemma {:induction false} RetainByUse(list: Keys, key: FileCacheKey, use: map<FileCacheKey, nat>)
    requires ByUse(list, use)
    ensures ByUse(Retain(list, key), use)
  {
    if list != [] {
      RetainByUse(list[1..], key, use);
      RetainMembers(list[1..], key);
      var r := Retain(list[1..], key);
      assert ([list[0]] + r)[1..] == r;
    }
  }

  /** A key that is used now goes to the end. */
  lemma {:induction false} PushByUse(list: Keys, use: map<FileCacheKey, nat>, key: FileCacheKey, now: nat)
    requires ByUse(list, use) && key !in list && forall k :: k in list ==> k in use && use[k] < now
    ensures ByUse(list + [key], use[key := now])
  {
    if list == [] {
      assert (list + [key])[1..] == [] && ByUse([], use[key := now]);
    } else {
      assert (list + [key])[1..] == list[1..] + [key];
      PushByUse(list[1..], use, key, now);
    }
  }

  lemma {:induction false} RetainSize(list: Keys, key: FileCacheKey, entries: Entries, use: map<FileCacheKey, nat>)
    requires ByUse(list, use) && key in list && key in entries
    ensures SizeOf(Retain(list, key), entries - {key}) == SizeOf(list, entries) - |entries[key].data|
  {
    var r := Retain(list[1..], key);
    if list[0] == key {
      RetainAbsent(list[1..], key);
      SizeAgrees(list[1..], entries, entries - {key});
    } else {
      RetainSize(list[1..], key, entries, use);
      assert ([list[0]] + r)[1..] == r;
    }
  }

  lemma {:induction false} SizeAgrees(list: Keys, a: Entries, b: Entries)
    requires forall k :: k in list ==> (k in a <==> k in b) && (k in a ==> |a[k].data| == |b[k].data|)
    ensures SizeOf(list, a) == SizeOf(list, b)
  {
    if list != [] {
      SizeAgrees(list[1..], a, b);
    }
  }

  lemma {:induction false} PushSize(list: Keys, key: FileCacheKey, entries: Entries, entry: CacheEntry)
    requires key !in list
    ensures SizeOf(list + [key], entries[key := entry]) == SizeOf(list, entries) + |entry.data|
  {
    if list == [] {
      assert (list + [key])[1..] == [];
    } else {
      PushSize(list[1..], key, entries, entry);
      assert (list + [key])[1..] == list[1..] + [key];
    }
  }

  // ---- What every operation keeps ----

  /** The list holds exactly the cached keys, least recently used first. */
  ghost predicate Listed(list: Keys, entries: Entries, use: map<FileCacheKey, nat>, clock: nat) {
    && ByUse(list, use)
    && (forall k :: k in list <==> k in entries)
    && (forall k :: k in use ==> use[k] < clock)
  }

  /**
   * The latest data of each key is cached or was the last thing written back for it, and so was that of clean entries.
   */
  ghost predicate Retained(entries: Entries, latest: map<FileCacheKey, Data>, writtenBack: map<FileCacheKey, Data>) {
    && (forall k :: k in entries ==> k in latest && entries[k].data == latest[k])
    && (forall k :: k in latest && (k !in entries || !entries[k].dirty) ==>
          k in writtenBack && writtenBack[k] == latest[k])
  }

  lemma TouchKeeps(list: Keys, entries: Entries, use: map<FileCacheKey, nat>, clock: nat, key: FileCacheKey,
                   entry: CacheEntry)
    requires Listed(list, entries, use, clock) && key in entries && |entry.data| == |entries[key].data|
    ensures Listed(Retain(list, key) + [key], entries[key := entry], use[key := clock], clock + 1)
    ensures SizeOf(Retain(list, key) + [key], entries[key := entry]) == SizeOf(list, entries)
  {
    hide ByUse, Retain, SizeOf;
    DropKeeps(list, entries, use, clock, key);
    InsertKeeps(Retain(list, key), entries - {key}, use, clock, key, entry);
    assert (entries - {key})[key := entry] == entries[key := entry];
  }

  lemma DropKeeps(list: Keys, entries: Entries, use: map<FileCacheKey, nat>, clock: nat, key: FileCacheKey)
    requires Listed(list, entries, use, clock) && key in entries
    ensures Listed(Retain(list, key), entries - {key}, use, clock)
    ensures SizeOf(Retain(list, key), entries - {key}) == SizeOf(list, entries) - |entries[key].data|
  {
    hide ByUse, Retain, SizeOf;
    RetainMembers(list, key);
    RetainByUse(list, key, use);
    RetainSize(list, key, entries, use);
  }

  lemma InsertKeeps(list: Keys, entries: Entries, use: map<FileCacheKey, nat>, clock: nat, key: FileCacheKey,
                    entry: CacheEntry)
    requires Listed(list, entries, use, clock) && key !in entries
    ensures Listed(list + [key], entries[key := entry], use[key := clock], clock + 1)
    ensures SizeOf(list + [key], entries[key := entry]) == SizeOf(list, entries) + |entry.data|
  {
    hide Retain, SizeOf;
    ByUseKnown(list, use);
    PushByUse(list, use, key, clock);
    PushSize(list, key, entries, entry);
  }

  lemma {:induction false} ByUseKnown(list: Keys, use: map<FileCacheKey, nat>)
    requires ByUse(list, use)
    ensures forall k :: k in list ==> k in use
  {
  }

  function DirtyKeys(entries: Entries): set<FileCacheKey> {
    set k | k in entries && entries[k].dirty
  }

  lemma NoneDirty(entries: Entries, latest: map<FileCacheKey, Data>, writtenBack: map<FileCacheKey, Data>)
    requires DirtyKeys(entries) == {} && Retained(entries, latest, writtenBack)
    ensures forall k :: k in entries ==> !entries[k].dirty
    ensures forall k :: k in latest ==> k in writtenBack && writtenBack[k] == latest[k]
  {
    forall k | k in entries
      ensures !entries[k].dirty
    {
      assert k !in DirtyKeys(entries);
    }
  }

  lemma CleanRetains(entries: Entries, latest: map<FileCacheKey, Data>, writtenBack: map<FileCacheKey, Data>,
                     key: FileCacheKey)
    requires Retained(entries, latest, writtenBack) && key in DirtyKeys(entries)
    ensures var entries' := entries[key := entries[key].(dirty := false)];
            && Retained(entries', latest, writtenBack[key := entries[key].data])
            && DirtyKeys(entries') == DirtyKeys(entries) - {key} && key in entries
  {
  }

  lemma RetainedInsert(entries: Entries, latest: map<FileCacheKey, Data>, writtenBack: map<FileCacheKey, Data>,
                       key: FileCacheKey, entry: CacheEntry)
    requires Retained(entries, map k | k in latest && k != key :: latest[k], writtenBack) && entry.dirty
    ensures Retained(entries[key := entry], latest[key := entry.data], writtenBack)
  {
    var others := map k | k in latest && k != key :: latest[k];
    assert forall k :: k in others ==> others[k] == latest[k];
  }

  lemma FrontRetained(list: Keys, use: map<FileCacheKey, nat>)
    requires ByUse(list, use) && list != []
    ensures Retain(list, list[0]) == list[1..]
    ensures forall k :: k in list ==> list[0] in use && k in use && use[list[0]] <= use[k]
  {
    RetainAbsent(list[1..], list[0]);
  }

  lemma KeptSizes(list: Keys, entries: Entries, use: map<FileCacheKey, nat>, clock: nat, before: Entries)
    requires Listed(list, entries, use, clock) && forall k :: k in entries ==> k in before && entries[k] == before[k]
    ensures SizeOf(list, entries) == SizeOf(list, before)
  {
    SizeAgrees(list, entries, before);
  }

  lemma AbsentKept(list: Keys, entries: Entries, use: map<FileCacheKey, nat>, clock: nat, key: FileCacheKey)
    requires Listed(list, entries, use, clock) && key !in entries
    ensures Retain(list, key) == list
  {
    RetainAbsent(list, key);
  }

  lemma EmptyList(entries: Entries, use: map<FileCacheKey, nat>, clock: nat)
    requires Listed([], entries, use, clock)
    ensures entries == map[] && SizeOf([], entries) == 0
  {
  }

  lemma CleanKeeps(list: Keys, entries: Entries, use: map<FileCacheKey, nat>, clock: nat, key: FileCacheKey)
    requires Listed(list, entries, use, clock) && key in entries
    ensures var entries' := entries[key := entries[key].(dirty := false)];
            Listed(list, entries', use, clock) && SizeOf(list, entries') == SizeOf(list, entries)
  {
    SizeAgrees(list, entries, entries[key := entries[key].(dirty := false)]);
  }

  // ---- The disk ----

  predicate Covers(offset: nat, length: nat, p: nat) {
    offset <= p < offset + length
  }

  /** The disk after the data was written at the offset, whatever file it belongs to. */
  function Stored(disk: map<nat, Byte>, offset: nat, data: Data): map<nat, Byte> {
    disk + map p: nat | offset <= p < offset + |data| && Covers(offset, |data|, p) :: data[p - offset]
  }

  ghost predicate ByteAt(disk: map<nat, Byte>, p: nat, b: Byte) {
    p in disk && disk[p] == b
  }

  ghost predicate OnDisk(disk: map<nat, Byte>, offset: nat, data: Data) {
    forall i :: 0 <= i < |data| ==> ByteAt(disk, offset + i, data[i])
  }

  /** The keys and lengths of everything ever written back. */
  type Extents = set<(FileCacheKey, nat)>

  ghost predicate Apart(a: nat, m: nat, b: nat, n: nat) {
    m == 0 || n == 0 || a + m <= b || b + n <= a
  }

  /** Nothing written back for another key overlaps the range. */
  ghost predicate Alone(extents: Extents, key: FileCacheKey, length: nat) {
    forall x :: x in extents && x.0 != key ==> Apart(key.offset, length, x.0.offset, x.1)
  }

  /** What was last written back for a key is on disk, unless something written back for another key overlaps it. */
  ghost predicate DiskKept(disk: map<nat, Byte>, writtenBack: map<FileCacheKey, Data>, extents: Extents) {
    forall k :: k in writtenBack && Alone(extents, k, |writtenBack[k]|) ==> OnDisk(disk, k.offset, writtenBack[k])
  }

  ghost predicate SameByte(disk: map<nat, Byte>, disk': map<nat, Byte>, p: nat) {
    (p in disk' <==> p in disk) && (p in disk ==> disk'[p] == disk[p])
  }

  ghost predicate DirtyAt(entries: Entries, k: FileCacheKey, p: nat) {
    k in entries && entries[k].dirty && Covers(k.offset, |entries[k].data|, p)
  }

  ghost predicate Reached(entries: Entries, p: nat) {
    exists k :: DirtyAt(entries, k, p)
  }

  /** The disk is as before except where a dirty entry stands. */
  ghost predicate Elsewhere(entries: Entries, disk: map<nat, Byte>, disk': map<nat, Byte>) {
    forall p: nat :: SameByte(disk, disk', p) || Reached(entries, p)
  }

  lemma ElsewhereNone(entries: Entries, disk: map<nat, Byte>)
    ensures Elsewhere(entries, disk, disk)
  {
  }

  lemma ElsewhereOne(entries: Entries, disk: map<nat, Byte>, key: FileCacheKey)
    requires key in entries && entries[key].dirty
    ensures Elsewhere(entries, disk, Stored(disk, key.offset, entries[key].data))
  {
    var disk' := Stored(disk, key.offset, entries[key].data);
    forall p: nat
      ensures SameByte(disk, disk', p) || Reached(entries, p)
    {
      if Covers(key.offset, |entries[key].data|, p) {
        assert DirtyAt(entries, key, p);
      }
    }
  }

  lemma ElsewhereTwice(entries: Entries, entries': Entries, disk: map<nat, Byte>, disk': map<nat, Byte>,
                       disk'': map<nat, Byte>)
    requires Elsewhere(entries, disk, disk') && Elsewhere(entries', disk', disk'')
    requires forall k :: k in entries' && entries'[k].dirty ==> k in entries && entries[k] == entries'[k]
    ensures Elsewhere(entries, disk, disk'')
  {
    forall p: nat
      ensures SameByte(disk, disk'', p) || Reached(entries, p)
    {
      assert SameByte(disk, disk', p) || Reached(entries, p);
      assert SameByte(disk', disk'', p) || Reached(entries', p);
      if Reached(entries', p) {
        var k :| DirtyAt(entries', k, p);
        assert DirtyAt(entries, k, p);
      }
    }
  }

  lemma StoredHere(disk: map<nat, Byte>, offset: nat, data: Data)
    ensures OnDisk(Stored(disk, offset, data), offset, data)
  {
    var disk' := Stored(disk, offset, data);
    forall i | 0 <= i < |data|
      ensures ByteAt(disk', offset + i, data[i])
    {
      assert Covers(offset, |data|, offset + i);
    }
  }

  lemma StoredApart(disk: map<nat, Byte>, offset: nat, data: Data, other: nat, kept: Data)
    requires OnDisk(disk, other, kept) && Apart(other, |kept|, offset, |data|)
    ensures OnDisk(Stored(disk, offset, data), other, kept)
  {
    var disk' := Stored(disk, offset, data);
    forall i | 0 <= i < |kept|
      ensures ByteAt(disk', other + i, kept[i])
    {
      assert !Covers(offset, |data|, other + i);
      assert ByteAt(disk, other + i, kept[i]);
    }
  }

  lemma StoreKeeps(disk: map<nat, Byte>, writtenBack: map<FileCacheKey, Data>, extents: Extents, key: FileCacheKey,
                   data: Data)
    requires DiskKept(disk, writtenBack, extents)
    ensures DiskKept(Stored(disk, key.offset, data), writtenBack[key := data], extents + {(key, |data|)})
  {
    hide Stored, OnDisk;
    var disk', extents', back := Stored(disk, key.offset, data), extents + {(key, |data|)}, writtenBack[key := data];
    forall k | k in back && Alone(extents', k, |back[k]|)
      ensures OnDisk(disk', k.offset, back[k])
    {
      if k == key {
        StoredHere(disk, key.offset, data);
      } else {
        assert (key, |data|) in extents';
        assert Alone(extents, k, |back[k]|);
        StoredApart(disk, key.offset, data, k.offset, back[k]);
      }
    }
  }

  // ---- The cache ----

  class FileCache {
    var entries: Entries
    var lruList: Keys
    var totalSize: int
    const maxSize: nat
    var disk: map<nat, Byte>
    ghost var lastUse: map<FileCacheKey, nat>
    ghost var clock: nat
    /** What was last written under each key that has not been invalidated since. */
    ghost var latest: map<FileCacheKey, Data>
    /** What was last written back for each key. */
    ghost var writtenBack: map<FileCacheKey, Data>
    ghost var extents: Extents

    ghost predicate Valid()
      reads this
    {
      && Listed(lruList, entries, lastUse, clock)
      && totalSize == SizeOf(lruList, entries) <= maxSize
      && Retained(entries, latest, writtenBack)
      && DiskKept(disk, writtenBack, extents)
    }

    constructor (maxSizeMb: nat, disk: map<nat, Byte>)
      ensures Valid() && maxSize == maxSizeMb * 1024 * 1024 && entries == map[] && latest == map[]
      ensures this.disk == disk && extents == {}
    {
      entries, lruList, totalSize := map[], [], 0;
      maxSize := maxSizeMb * 1024 * 1024;
      lastUse, clock, latest, writtenBack, extents := map[], 0, map[], map[], {};
      this.disk := disk;
    }

    /** Read what is cached under a key: it is the latest data. Other keys stay, in the same order of use. */
    method Read(key: FileCacheKey, buffer: array<Byte>) returns (r: Option<nat>)
      requires Valid()
      modifies this`entries, this`lruList, this`lastUse, this`clock, buffer
      ensures Valid() && entries.Keys == old(entries).Keys
      ensures r.Some? <==> key in entries
      ensures r.Some? ==> key in latest && r.value <= |latest[key]| && r.value <= buffer.Length
      ensures r.Some? ==> r.value == |latest[key]| || r.value == buffer.Length
      ensures r.Some? ==> buffer[..r.value] == latest[key][..r.value] && buffer[r.value..] == old(buffer[r.value..])
      ensures lruList == if r.Some? then Retain(old(lruList), key) + [key] else old(lruList)
      ensures r.None? ==> unchanged(this) && buffer[..] == old(buffer[..])
      ensures forall k :: k in entries && k != key ==> entries[k] == old(entries)[k]
      ensures r.Some? ==> entries[key] == old(entries)[key].(accessCount := old(entries)[key].accessCount + 1)
    {
      hide Listed, SizeOf, Retain, DiskKept;
      if key !in entries {
        return None;
      }
      var entry := entries[key];
      var n := if |entry.data| < buffer.Length then |entry.data| else buffer.Length;
      forall i | 0 <= i < n {
        buffer[i] := entry.data[i];
      }
      Touch(key, entry.(accessCount := entry.accessCount + 1));
      return Some(n);
    }

    method Touch(key: FileCacheKey, entry: CacheEntry)
      requires Valid() && key in entries && entry == entries[key].(accessCount := entry.accessCount)
      modifies this`entries, this`lruList, this`lastUse, this`clock
      ensures Valid() && entries == old(entries)[key := entry] && lruList == Retain(old(lruList), key) + [key]
    {
      hide Listed, SizeOf, Retain, DiskKept;
      TouchKeeps(lruList, entries, lastUse, clock, key, entry);
      entries := entries[key := entry];
      lruList := Retain(lruList, key) + [key];
      lastUse, clock := lastUse[key := clock], clock + 1;
    }

    /** Drop the least recently used entry, writing it back if it is dirty; there is none only in an empty cache. */
    method EvictLru() returns (evicted: bool)
      requires Valid()
      modifies this`entries, this`lruList, this`totalSize, this`writtenBack, this`disk, this`extents
      ensures Valid() && evicted == (old(lruList) != [])
      ensures evicted ==> lruList == old(lruList)[1..] && entries == old(entries) - {old(lruList)[0]}
      ensures evicted ==> old(lruList)[0] in lastUse
      ensures evicted ==> forall k :: k in old(entries) ==> k in lastUse && lastUse[old(lruList)[0]] <= lastUse[k]
      ensures evicted && !old(entries)[old(lruList)[0]].dirty ==> disk == old(disk) && extents == old(extents)
      ensures evicted && old(entries)[old(lruList)[0]].dirty ==>
                var key, data := old(lruList)[0], old(entries)[old(lruList)[0]].data;
                disk == Stored(old(disk), key.offset, data) && extents == old(extents) + {(key, |data|)}
      ensures !evicted ==> unchanged(this)
      ensures Elsewhere(old(entries), old(disk), disk)
    {
      hide ByUse, SizeOf, Retain, DiskKept, Stored, Elsewhere;
      ElsewhereNone(entries, disk);
      if lruList == [] {
        return false;
      }
      var key := lruList[0];
      assert key in lruList;
      FrontRetained(lruList, lastUse);
      DropKeeps(lruList, entries, lastUse, clock, key);
      var entry := entries[key];
      lruList := lruList[1..];
      entries := entries - {key};
      if entry.dirty {
        ElsewhereOne(old(entries), disk, key);
        WriteToDisk(key, entry.data);
      }
      totalSize := totalSize - |entry.data|;
      return true;
    }

    method WriteToDisk(key: FileCacheKey, data: Data)
      modifies this`writtenBack, this`disk, this`extents
      ensures writtenBack == old(writtenBack)[key := data]
      ensures disk == Stored(old(disk), key.offset, data) && extents == old(extents) + {(key, |data|)}
      ensures old(DiskKept(disk, writtenBack, extents)) ==> DiskKept(disk, writtenBack, extents)
    {
      hide DiskKept, Stored;
      if DiskKept(disk, writtenBack, extents) {
        StoreKeeps(disk, writtenBack, extents, key, data);
      }
      disk := Stored(disk, key.offset, data);
      writtenBack := writtenBack[key := data];
      extents := extents + {(key, |data|)};
    }

    /** Drop least recently used entries until `size` more bytes fit, or nothing is left. */
    method MakeRoom(size: nat) returns (ok: bool, ghost evicted: nat)
      requires Valid()
      modifies this`entries, this`lruList, this`totalSize, this`writtenBack, this`disk, this`extents
      ensures Valid() && ok == (size <= maxSize) && (ok ==> totalSize + size <= maxSize)
      ensures evicted <= |old(lruList)| && lruList == old(lruList)[evicted..]
      ensures evicted > 0 ==> SizeOf(old(lruList)[evicted - 1..], old(entries)) + size > maxSize
      ensures !ok ==> entries == map[]
      ensures Elsewhere(old(entries), old(disk), disk)
    {
      hide Listed, SizeOf, Retain, Retained, DiskKept, Stored, Elsewhere;
      evicted := 0;
      ElsewhereNone(entries, disk);
      while totalSize + size > maxSize
        invariant Valid()
        invariant evicted <= |old(lruList)| && lruList == old(lruList)[evicted..]
        invariant SizeOf(lruList, entries) == SizeOf(lruList, old(entries))
        invariant forall k :: k in entries ==> k in old(entries) && entries[k] == old(entries)[k]
        invariant evicted > 0 ==> SizeOf(old(lruList)[evicted - 1..], old(entries)) + size > maxSize
        invariant Elsewhere(old(entries), old(disk), disk)
        decreases |lruList|
      {
        ghost var before, kept, diskBefore := lruList, entries, disk;
        var dropped := EvictLru();
        if !dropped {
          EmptyList(entries, lastUse, clock);
          return false, evicted;
        }
        ElsewhereTwice(old(entries), kept, old(disk), diskBefore, disk);
        KeptSizes(lruList, entries, lastUse, clock, old(entries));
        assert before == old(lruList)[evicted..] && before[1..] == old(lruList)[evicted + 1..];
        evicted := evicted + 1;
      }
      return true, evicted;
    }

    /**
     * Cache new data, making room first by dropping the `evicted` least recently used entries, no more than it takes.
     * It fails exactly if the data alone is too big, and then has emptied the cache.
     */
    method Write(key: FileCacheKey, data: Data) returns (ok: bool, ghost evicted: nat)
      requires Valid()
      modifies this
      ensures Valid() && ok == (|data| <= maxSize)
      ensures ok ==>
                latest == old(latest)[key := data] && key in entries && entries[key].data == data && entries[key].dirty
      ensures evicted <= |old(lruList)|
      ensures ok ==> lruList == Retain(old(lruList)[evicted..], key) + [key]
      ensures evicted > 0 ==> SizeOf(old(lruList)[evicted - 1..], old(entries)) + |data| > maxSize
      ensures !ok ==> latest == old(latest) && entries == map[]
      ensures Elsewhere(old(entries), old(disk), disk)
    {
      hide Listed, SizeOf, Retain, DiskKept, Elsewhere;
      ok, evicted := MakeRoom(|data|);
      if !ok {
        return;
      }
      if key in entries {
        Remove(key);
      } else {
        AbsentKept(lruList, entries, lastUse, clock, key);
      }
      Insert(key, data);
    }

    method Remove(key: FileCacheKey)
      requires Listed(lruList, entries, lastUse, clock) && totalSize == SizeOf(lruList, entries) && key in entries
      modifies this`entries, this`lruList, this`totalSize
      ensures Listed(lruList, entries, lastUse, clock) && totalSize == SizeOf(lruList, entries)
      ensures entries == old(entries) - {key} && totalSize == old(totalSize) - |old(entries)[key].data|
      ensures lruList == Retain(old(lruList), key)
    {
      hide ByUse, SizeOf, Retain;
      DropKeeps(lruList, entries, lastUse, clock, key);
      totalSize := totalSize - |entries[key].data|;
      lruList := Retain(lruList, key);
      entries := entries - {key};
    }

    method Insert(key: FileCacheKey, data: Data)
      requires Listed(lruList, entries, lastUse, clock) && totalSize == SizeOf(lruList, entries) && key !in entries
      requires totalSize + |data| <= maxSize
      requires Retained(entries, map k | k in latest && k != key :: latest[k], writtenBack)
            && DiskKept(disk, writtenBack, extents)
      modifies this`entries, this`lruList, this`totalSize, this`lastUse, this`clock, this`latest
      ensures Valid() && latest == old(latest)[key := data] && entries == old(entries)[key := CacheEntry(data, true, 1)]
      ensures lruList == old(lruList) + [key]
    {
      hide Listed, SizeOf, Retained, DiskKept;
      var entry := CacheEntry(data, true, 1);
      InsertKeeps(lruList, entries, lastUse, clock, key, entry);
      RetainedInsert(entries, latest, writtenBack, key, entry);
      entries := entries[key := entry];
      lruList := lruList + [key];
      totalSize := totalSize + |data|;
      lastUse, clock, latest := lastUse[key := clock], clock + 1, latest[key := data];
    }

    /**
     * Write every dirty entry back; what is cached stays. The latest data of a key is then on disk, unless something
     * written back for another key overlaps it.
     */
    method FlushDirtyPages() returns (flushed: nat)
      requires Valid()
      modifies this`entries, this`writtenBack, this`disk, this`extents
      ensures Valid() && entries.Keys == old(entries).Keys && forall k :: k in entries ==> !entries[k].dirty
      ensures flushed == |DirtyKeys(old(entries))|
      ensures forall k :: k in latest ==> k in writtenBack && writtenBack[k] == latest[k]
      ensures forall k :: k in latest && Alone(extents, k, |latest[k]|) ==> OnDisk(disk, k.offset, latest[k])
      ensures Elsewhere(old(entries), old(disk), disk)
    {
      hide Listed, SizeOf, Retained, Stored, Alone, OnDisk, Elsewhere;
      ElsewhereNone(entries, disk);
      var dirtyKeys := DirtyKeys(entries);
      flushed := 0;
      while dirtyKeys != {}
        invariant Valid() && entries.Keys == old(entries).Keys && flushed + |dirtyKeys| == |DirtyKeys(old(entries))|
        invariant dirtyKeys == DirtyKeys(entries) && forall k :: k in dirtyKeys ==> entries[k] == old(entries)[k]
        invariant Elsewhere(old(entries), old(disk), disk)
        decreases |dirtyKeys|
      {
        var key :| key in dirtyKeys;
        CleanRetains(entries, latest, writtenBack, key);
        CleanKeeps(lruList, entries, lastUse, clock, key);
        ElsewhereOne(entries, disk, key);
        ElsewhereTwice(old(entries), entries, old(disk), disk, Stored(disk, key.offset, entries[key].data));
        WriteToDisk(key, entries[key].data);
        entries := entries[key := entries[key].(dirty := false)];
        dirtyKeys := dirtyKeys - {key};
        flushed := flushed + 1;
      }
      NoneDirty(entries, latest, writtenBack);
    }

    method Invalidate(key: FileCacheKey) returns (found: bool)
      requires Valid()
      modifies this`entries, this`lruList, this`totalSize, this`latest
      ensures Valid() && found == (key in old(entries)) && entries == old(entries) - {key}
      ensures latest == if found then old(latest) - {key} else old(latest)
    {
      hide Listed, SizeOf, Retain, DiskKept;
      found := key in entries;
      if found {
        Remove(key);
        latest := latest - {key};
      }
    }
  }

  lemma Collide(disk: map<nat, Byte>, x: Data, y: Data)
    requires x != [] && y != [] && x[0] != y[0]
    ensures !(OnDisk(disk, 0, x) && OnDisk(disk, 0, y))
  {
    assert OnDisk(disk, 0, x) ==> ByteAt(disk, 0, x[0]);
    assert OnDisk(disk, 0, y) ==> ByteAt(disk, 0, y[0]);
  }

  /** Entries of two files at one offset are written to the same place, so flushing loses one of them. */
  method FlushCollides() returns (cache: FileCache)
    ensures fresh(cache) && cache.Valid()
    ensures exists a, b :: a in cache.latest && b in cache.latest && a.fileId != b.fileId
              && !(OnDisk(cache.disk, a.offset, cache.latest[a]) && OnDisk(cache.disk, b.offset, cache.latest[b]))
  {
    hide Listed, SizeOf, Retained, DiskKept, Retain, Stored;
    cache := new FileCache(1, map[]);
    var a, b := FileCacheKey(0, 1, 0), FileCacheKey(0, 2, 0);
    var ok, evicted := cache.Write(a, [1]);
    ok, evicted := cache.Write(b, [2]);
    var flushed := cache.FlushDirtyPages();
    assert cache.latest == map[a := [1], b := [2]];
    Collide(cache.disk, [1], [2]);
  }
}
