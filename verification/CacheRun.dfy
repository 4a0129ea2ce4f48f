/** Every run of the block cache looks to its clients like a run of a plain block store that fails in known cases. */
module CacheRun {
  import opened Bytes
  import opened CacheState
  import opened CacheInvariant
  import opened CacheView
  import opened CacheManager
  import opened Wrappers

  datatype Op =
    | Read(file: nat, offset: nat, count: nat)
    | Write(file: nat, offset: nat, bytes: seq<Byte>)
    | ReadAhead(file: nat)
    | Writeback(due: bool, pressure: Pressure)
    | FlushAll
    | InvalidateFile(file: nat)
    | ProcessInvalidations
    | SetMode(mode: CoherencyMode)

  datatype Outcome = Bytes(bytes: seq<Byte>) | Done | Failed

  /** What decides on an operation: the contents, which blocks are cached, and whether slots can be had. */
  datatype Glimpse = Glimpse(store: Store, keys: set<Key>, used: nat, exhausted: bool)

  ghost function Glance(cache: CacheManager): (g: Glimpse)
    reads cache
    ensures Full(g.store)
  {
    Glimpse(cache.Store(), cache.hashTable.Keys, cache.blocksUsed, cache.Exhausted())
  }

  /** Files keep to their own blocks. */
  ghost predicate Permitted(op: Op, owner: Owner) {
    match op
    case Read(file, offset, count) => OwnsRange(owner, file, offset, count)
    case Write(file, offset, bytes) => OwnsRange(owner, file, offset, |bytes|)
    case _ => true
  }

  /** A block of the range is not cached and no slot can be had for it. */
  ghost predicate Fails(before: Glimpse, file: nat, offset: nat, count: nat) {
    before.exhausted && !AllCached(before.keys, file, offset, count)
  }

  /**
   * The bytes are in the store and untouched blocks stay; nothing else changes if blocks written in part stay cached,
   * or if no slot can be had.
   */
  ghost predicate PlainWrite(before: Glimpse, after: Glimpse, file: nat, offset: nat, count: nat, bytes: seq<Byte>)
    requires Full(before.store) && Full(after.store)
  {
    && Patched(before.store, after.store, offset, bytes)
    && (before.exhausted || Covers(before.keys, before.used, file, offset, count) ==>
          Wrote(before.store, after.store, offset, bytes))
  }

  /** A write stops before the first block that no slot can be had for. */
  ghost predicate CutShort(before: Glimpse, after: Glimpse, file: nat, offset: nat, bytes: seq<Byte>, k: nat)
    requires Full(before.store) && Full(after.store)
  {
    k < |bytes| && StopsAt(before.keys, file, offset, k) && PlainWrite(before, after, file, offset, |bytes|, bytes[..k])
  }

  /** An exhausted cache stays so and caches no further block. */
  ghost predicate StaysExhausted(before: Glimpse, after: Glimpse) {
    before.exhausted ==> after.exhausted && after.keys <= before.keys
  }

  /** What the operation does to a plain block store, and exactly when it fails. */
  ghost predicate PlainStep(op: Op, before: Glimpse, outcome: Outcome, after: Glimpse)
    requires Full(before.store) && Full(after.store)
  {
    && StaysExhausted(before, after)
    && match op
       case Read(file, offset, count) =>
         && after.store == before.store
         && (if Fails(before, file, offset, count) then outcome.Failed?
             else outcome.Bytes? && |outcome.bytes| == count && ReadsAs(before.store, offset, outcome.bytes))
       case Write(file, offset, bytes) =>
         if Fails(before, file, offset, |bytes|) then
           outcome.Failed? && exists k :: CutShort(before, after, file, offset, bytes, k)
         else
           outcome.Done? && PlainWrite(before, after, file, offset, |bytes|, bytes)
       case _ => outcome.Done? && after.store == before.store
  }

  method StepRead(cache: CacheManager, file: nat, offset: nat, count: nat) returns (outcome: Outcome)
    requires cache.Valid() && cache.Coherent() && OwnsRange(cache.owner, file, offset, count)
    modifies cache
    ensures cache.Valid() && cache.Coherent() && (old(cache.Unpinned()) ==> cache.Unpinned())
    ensures PlainStep(Read(file, offset, count), old(Glance(cache)), outcome, Glance(cache))
  {
    hide Inv, Owned, CleanOnDisk, Views, OwnsRange, AllCached, ReadsAs, AllPinned, NonePinned;
    var buffer := new Byte[count](_ => 0);
    var r := cache.CcRead(file, offset, buffer);
    outcome := if r.Some? then Bytes(buffer[..]) else Failed;
  }

  method StepWrite(cache: CacheManager, file: nat, offset: nat, bytes: seq<Byte>) returns (outcome: Outcome)
    requires cache.Valid() && cache.Coherent() && OwnsRange(cache.owner, file, offset, |bytes|)
    modifies cache
    ensures cache.Valid() && cache.Coherent() && (old(cache.Unpinned()) ==> cache.Unpinned())
    ensures PlainStep(Write(file, offset, bytes), old(Glance(cache)), outcome, Glance(cache))
  {
    hide Inv, Owned, CleanOnDisk, Views, OwnsRange, AllCached, StopsAt, Covers, Wrote, Patched, AllPinned, NonePinned;
    var r, written := cache.CcWrite(file, offset, bytes);
    assert bytes[..|bytes|] == bytes;
    if r.Some? {
      return Done;
    } else {
      assert CutShort(old(Glance(cache)), Glance(cache), file, offset, bytes, written);
      return Failed;
    }
  }

  method Step(cache: CacheManager, op: Op) returns (outcome: Outcome)
    requires cache.Valid() && cache.Coherent() && Permitted(op, cache.owner)
    modifies cache
    ensures cache.Valid() && cache.Coherent() && (old(cache.Unpinned()) ==> cache.Unpinned())
    ensures PlainStep(op, old(Glance(cache)), outcome, Glance(cache))
  {
    hide Inv, Owned, CleanOnDisk, Views, OwnsRange, Fails, CutShort, PlainWrite, ReadsAs, AllPinned, NonePinned;
    outcome := Done;
    match op {
      case Read(file, offset, count) =>
        outcome := StepRead(cache, file, offset, count);
      case Write(file, offset, bytes) =>
        outcome := StepWrite(cache, file, offset, bytes);
      case ReadAhead(file) => cache.Readahead(file);
      case Writeback(due, pressure) => var flushed := cache.WritebackDirty(due, pressure);
      case FlushAll => cache.FlushAll();
      case InvalidateFile(file) => cache.InvalidateFile(file);
      case ProcessInvalidations => cache.ProcessInvalidations();
      case SetMode(mode) => cache.SetCoherencyMode(mode);
    }
  }

  /** The outcomes and the states in between are those of a run of a plain block store. */
  ghost predicate PlainRun(ops: seq<Op>, states: seq<Glimpse>, outcomes: seq<Outcome>) {
    && |states| == |ops| + 1 && |outcomes| == |ops|
    && (forall i :: 0 <= i < |states| ==> Full(states[i].store))
    && (forall i :: 0 <= i < |ops| ==> PlainStep(ops[i], states[i], outcomes[i], states[i + 1]))
  }

  lemma PlainRunExtends(ops: seq<Op>, states: seq<Glimpse>, outcomes: seq<Outcome>, op: Op, state: Glimpse,
                        outcome: Outcome)
    requires PlainRun(ops, states, outcomes) && Full(state.store) && PlainStep(op, states[|ops|], outcome, state)
    ensures PlainRun(ops + [op], states + [state], outcomes + [outcome])
  {
    hide PlainStep;
  }

  /** Every slot has been handed out and every block dropped since. */
  ghost predicate WornOut(g: Glimpse) {
    g.used == MAX_CACHE_BLOCKS && g.keys == {}
  }

  /** Nothing is pinned along the run, so it is exhausted only where it is worn out. */
  ghost predicate PinFree(states: seq<Glimpse>) {
    forall i :: 0 <= i < |states| ==> (states[i].exhausted <==> WornOut(states[i]))
  }

  lemma PinFreeGlance(cache: CacheManager)
    requires cache.Valid() && cache.Unpinned()
    ensures Glance(cache).exhausted <==> WornOut(Glance(cache))
  {
    cache.ExhaustedUnpinned();
  }

  method Run(cache: CacheManager, ops: seq<Op>) returns (outcomes: seq<Outcome>, ghost states: seq<Glimpse>)
    requires cache.Valid() && cache.Coherent() && forall i :: 0 <= i < |ops| ==> Permitted(ops[i], cache.owner)
    modifies cache
    ensures cache.Valid() && cache.Coherent()
    ensures PlainRun(ops, states, outcomes) && states[0] == old(Glance(cache)) && states[|ops|] == Glance(cache)
    ensures old(cache.Unpinned()) ==> cache.Unpinned() && PinFree(states)
  {
    hide Inv, Owned, CleanOnDisk, Views, Permitted, PlainStep, WornOut, AllPinned, NonePinned, Glance;
    outcomes, states := [], [Glance(cache)];
    if cache.Unpinned() {
      PinFreeGlance(cache);
    }
    for i := 0 to |ops|
      invariant cache.Valid() && cache.Coherent()
      invariant PlainRun(ops[..i], states, outcomes) && states[0] == old(Glance(cache)) && states[i] == Glance(cache)
      invariant old(cache.Unpinned()) ==> cache.Unpinned() && PinFree(states)
    {
      var outcome := Step(cache, ops[i]);
      PlainRunExtends(ops[..i], states, outcomes, ops[i], Glance(cache), outcome);
      assert ops[..i + 1] == ops[..i] + [ops[i]];
      if cache.Unpinned() {
        PinFreeGlance(cache);
      }
      outcomes, states := outcomes + [outcome], states + [Glance(cache)];
    }
    assert ops[..|ops|] == ops;
  }

  /** The operation reads or writes at least one byte. */
  predicate Moves(op: Op) {
    (op.Read? && op.count > 0) || (op.Write? && op.bytes != [])
  }

  /** Once worn out, always worn out. */
  lemma {:induction false} WornOutStays(ops: seq<Op>, states: seq<Glimpse>, outcomes: seq<Outcome>, i: nat, j: nat)
    requires PlainRun(ops, states, outcomes) && PinFree(states) && i <= j <= |ops| && WornOut(states[i])
    ensures WornOut(states[j])
  {
    if i < j {
      WornOutStays(ops, states, outcomes, i, j - 1);
      assert PlainStep(ops[j - 1], states[j - 1], outcomes[j - 1], states[j]);
      assert states[j].keys == {};
    }
  }

  /**
   * Without pins, reads and writes of at least a byte fail exactly where the cache is worn out, and so do all later
   * ones.
   */
  lemma FailsWornOut(ops: seq<Op>, states: seq<Glimpse>, outcomes: seq<Outcome>, i: nat)
    requires PlainRun(ops, states, outcomes) && PinFree(states) && i < |ops| && Moves(ops[i])
    ensures outcomes[i].Failed? <==> WornOut(states[i])
    ensures outcomes[i].Failed? ==> forall j :: i <= j < |ops| && Moves(ops[j]) ==> outcomes[j].Failed?
  {
    FailsHere(ops[i], states[i], outcomes[i], states[i + 1]);
    forall j | i <= j < |ops| && Moves(ops[j]) && outcomes[i].Failed?
      ensures outcomes[j].Failed?
    {
      WornOutStays(ops, states, outcomes, i, j);
      FailsHere(ops[j], states[j], outcomes[j], states[j + 1]);
    }
  }

  lemma FailsHere(op: Op, before: Glimpse, outcome: Outcome, after: Glimpse)
    requires Full(before.store) && Full(after.store) && PlainStep(op, before, outcome, after) && Moves(op)
    requires before.exhausted <==> WornOut(before)
    ensures outcome.Failed? <==> WornOut(before)
  {
    hide PlainWrite, CutShort, ReadsAs;
    var count := if op.Read? then op.count else |op.bytes|;
    if AllCached(before.keys, op.file, op.offset, count) {
      FirstBlock(before.keys, op.file, op.offset, count);
    }
  }

  lemma FirstBlock(keys: set<Key>, file: nat, offset: nat, count: nat)
    requires count > 0 && AllCached(keys, file, offset, count)
    ensures (file, offset / CACHE_BLOCK_SIZE) in keys
  {
  }

  // ---- Concrete failures ----

  ghost function OnlyFile(n: nat): nat {
    0
  }

  /** Writing one byte of a block that is not cached loses the disk's other bytes of that block. */
  method PartialWriteOnMiss() returns (cache: CacheManager, ghost before: Store)
    ensures fresh(cache) && cache.Valid() && cache.Coherent() && Full(before)
    ensures ByteAt(before, 1) == 7 && ByteAt(cache.Store(), 1) == 0
  {
    hide Inv, Owned, CleanOnDisk, Views;
    ghost var owner: Owner := imap n: nat | true :: OnlyFile(n);
    cache := new CacheManager(NoCoherency, map[0 := Page(Repeat(7, 4096))], owner);
    before := cache.Store();
    assert DiskRead(cache.disk, 0) == before[0];
    var slot := cache.WriteBlock((0, 0), 0, [1]);
  }

  /** Pinning a block that is not cached shows the slot's leftovers in place of the disk's contents. */
  method PinOnMiss() returns (cache: CacheManager, ghost before: Store)
    ensures fresh(cache) && cache.Valid() && !cache.Coherent() && Full(before)
    ensures ByteAt(before, 0) == 7 && ByteAt(cache.Store(), 0) == 0
  {
    hide Inv, Owned, CleanOnDisk, Views;
    ghost var owner: Owner := imap n: nat | true :: OnlyFile(n);
    cache := new CacheManager(NoCoherency, map[0 := Page(Repeat(7, 4096))], owner);
    before := cache.Store();
    assert DiskRead(cache.disk, 0) == before[0];
    var slot := cache.PinBlock((0, 0));
    assert before[0].bytes[0] != ZERO_PAGE.bytes[0];
  }

  /** Reading a block afresh takes another slot. */
  method ReadAfresh(cache: CacheManager, buffer: array<Byte>) returns (r: Option<nat>)
    requires cache.Valid() && cache.Coherent() && cache.Unpinned() && EntersOnly({}, cache.hashTable.Keys, 0)
    requires OwnsRange(cache.owner, 0, 0, 1) && buffer.Length == 1
    modifies cache, buffer
    ensures cache.Valid() && cache.Coherent() && cache.Unpinned() && EntersOnly({}, cache.hashTable.Keys, 0)
    ensures cache.blocksUsed <= MAX_CACHE_BLOCKS
    ensures old(cache.blocksUsed) < MAX_CACHE_BLOCKS ==> old(cache.blocksUsed) < cache.blocksUsed
    ensures old(cache.blocksUsed) == MAX_CACHE_BLOCKS ==> r.None? && WornOut(Glance(cache))
  {
    hide Linked, Indexed, DirtyTracked, ByRecency, Owned, CleanOnDisk, Views, ReadsAs, AllCached, OwnsRange;
    hide AllPinned, NonePinned;
    cache.InvalidateFile(0);
    assert cache.hashTable.Keys == {};
    cache.ExhaustedUnpinned();
    if AllCached({}, 0, 0, 1) {
      FirstBlock({}, 0, 0, 1);
    }
    r := cache.CcRead(0, 0, buffer);
  }

  /**
   * Reading one block and dropping it again, as often as there are slots, leaves a cache that can read nothing more.
   */
  method WearOut() returns (cache: CacheManager, r: Option<nat>)
    ensures fresh(cache) && cache.Valid() && cache.Coherent() && cache.Unpinned()
    ensures WornOut(Glance(cache)) && r.None?
  {
    hide Inv, Owned, CleanOnDisk, Views, AllPinned, NonePinned, WornOut;
    ghost var owner: Owner := imap n: nat | true :: OnlyFile(n);
    cache := new CacheManager(NoCoherency, map[], owner);
    var buffer := new Byte[1](_ => 0);
    while cache.blocksUsed < MAX_CACHE_BLOCKS
      invariant cache.Valid() && cache.Coherent() && cache.Unpinned() && cache.blocksUsed <= MAX_CACHE_BLOCKS
      invariant EntersOnly({}, cache.hashTable.Keys, 0)
    {
      r := ReadAfresh(cache, buffer);
    }
    r := ReadAfresh(cache, buffer);
  }
}
