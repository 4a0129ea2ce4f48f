/** Byte-range locks and opportunistic locks of `fs/locking.rs`. */
module Locking {
  import opened Lists
  import opened Wrappers

  const U64_MAX: nat := 0xffff_ffff_ffff_ffff

  type U64 = x: nat | x <= 0xffff_ffff_ffff_ffff

  datatype LockType = Shared | Exclusive

  /** Where a range ends, by saturating addition. */
  function End(offset: U64, length: U64): U64 {
    if offset + length <= U64_MAX then offset + length else U64_MAX
  }

  datatype ByteRangeLock = ByteRangeLock(
    fileId: U64, processId: nat, offset: U64, length: U64, lockType: LockType, mandatory: bool, key: nat)
  {
    predicate Overlaps(other: ByteRangeLock) {
      !(offset >= End(other.offset, other.length) || other.offset >= End(offset, length))
    }

    predicate ConflictsWith(other: ByteRangeLock) {
      processId != other.processId && Overlaps(other) && !(lockType == Shared && other.lockType == Shared)
    }

    predicate Covers(o: U64, n: U64) {
      o >= offset && End(o, n) <= End(offset, length)
    }

    /** The byte lies in the locked range. */
    ghost predicate Holds(b: nat) {
      offset <= b < offset + length
    }
  }

  // ---- Conflicts and coverage, byte by byte ----

  /** Both locks hold some byte below the last. */
  ghost predicate ShareByte(x: ByteRangeLock, y: ByteRangeLock) {
    exists b :: 0 <= b < U64_MAX && x.Holds(b) && y.Holds(b)
  }

  /** An empty lock strictly inside another one, which the code counts as an overlap. */
  ghost predicate EmptyInside(x: ByteRangeLock, y: ByteRangeLock) {
    x.length == 0 && x.offset < U64_MAX && y.offset < x.offset && y.Holds(x.offset)
  }

  /** Owners, types and bytes of two locks that must not both be granted. */
  ghost predicate Exclude(x: ByteRangeLock, y: ByteRangeLock) {
    && x.processId != y.processId
    && (x.lockType == Exclusive || y.lockType == Exclusive)
    && (ShareByte(x, y) || EmptyInside(x, y) || EmptyInside(y, x))
  }

  lemma OverlapsExactly(x: ByteRangeLock, y: ByteRangeLock)
    ensures x.Overlaps(y) <==> ShareByte(x, y) || EmptyInside(x, y) || EmptyInside(y, x)
  {
    var b := if x.offset < y.offset then y.offset else x.offset;
    if x.Overlaps(y) && x.length > 0 && y.length > 0 {
      assert x.Holds(b) && y.Holds(b);
    }
  }

  /** What the code takes for a conflict, for all ranges. */
  lemma ConflictsExactly(x: ByteRangeLock, y: ByteRangeLock)
    ensures x.ConflictsWith(y) <==> Exclude(x, y)
  {
    OverlapsExactly(x, y);
  }

  /** Every byte of the range below the last is held. */
  ghost predicate HoldsAll(x: ByteRangeLock, o: U64, n: U64) {
    forall b :: o <= b < o + n && b < U64_MAX ==> x.Holds(b)
  }

  /** A lock covers a range if it holds all its bytes, and an empty range if it starts in the lock or at its end. */
  lemma CoversExactly(x: ByteRangeLock, o: U64, n: U64)
    ensures n > 0 && o < U64_MAX ==> (x.Covers(o, n) <==> HoldsAll(x, o, n))
    ensures n == 0 || o == U64_MAX ==> (x.Covers(o, n) <==> x.offset <= o <= x.offset + x.length)
  {
    if n > 0 && o < U64_MAX {
      var last := End(o, n) - 1;
      if HoldsAll(x, o, n) {
        assert x.Holds(o) && x.Holds(last);
      }
    }
  }

  // ---- What the table promises ----

  /** No two locks on one file conflict. */
  ghost predicate NoConflicts(locks: seq<ByteRangeLock>) {
    forall x, y :: x in locks && y in locks && x.fileId == y.fileId ==> !x.ConflictsWith(y)
  }

  ghost predicate KeysUnique(locks: seq<ByteRangeLock>, nextKey: nat) {
    && Distinct(locks)
    && (forall x :: x in locks ==> x.key < nextKey)
    && (forall x, y :: x in locks && y in locks && x.key == y.key ==> x == y)
  }

  /** An exclusive lock shares no byte below the last with a lock of another process. */
  lemma BytesExcluded(locks: seq<ByteRangeLock>, x: ByteRangeLock, y: ByteRangeLock, b: nat)
    requires NoConflicts(locks) && x in locks && y in locks && x.fileId == y.fileId
    requires x.Holds(b) && y.Holds(b) && b < U64_MAX
    ensures x.processId == y.processId || (x.lockType == Shared && y.lockType == Shared)
  {
    assert x.Overlaps(y);
  }

  /** Some other process's lock covers the whole range and rules the access out. */
  ghost predicate Refused(locks: seq<ByteRangeLock>, file: U64, process: nat, offset: U64, length: U64,
                          forWrite: bool)
  {
    exists x :: x in locks && Refuses(x, file, process, offset, length, forWrite)
  }

  predicate Refuses(x: ByteRangeLock, file: U64, process: nat, offset: U64, length: U64, forWrite: bool) {
    x.fileId == file && x.processId != process && x.Covers(offset, length) && (x.lockType == Exclusive || forWrite)
  }

  /** In a table without conflicts, an exclusive holder whose lock covers the range is not refused. */
  ghost predicate AdmitsHolder(locks: seq<ByteRangeLock>, x: ByteRangeLock, offset: U64, length: U64, forWrite: bool) {
    NoConflicts(locks) && x in locks && x.lockType == Exclusive && x.Covers(offset, length) ==>
      !Refused(locks, x.fileId, x.processId, offset, length, forWrite)
  }

  lemma HolderAdmitted(locks: seq<ByteRangeLock>, x: ByteRangeLock, offset: U64, length: U64, forWrite: bool)
    requires offset < End(offset, length)
    ensures AdmitsHolder(locks, x, offset, length, forWrite)
  {
    if NoConflicts(locks) && x in locks && x.lockType == Exclusive && x.Covers(offset, length) {
      forall y | y in locks && y.fileId == x.fileId && y.processId != x.processId
        ensures !y.Covers(offset, length)
      {
        assert !y.ConflictsWith(x);
      }
    }
  }

  /** A range that is empty, or saturates to empty, can be locked by two processes that then refuse each other. */
  lemma HolderRefused(offset: U64, length: U64)
    requires offset >= End(offset, length)
    ensures exists locks, x :: !AdmitsHolder(locks, x, offset, length, false)
  {
    var x := ByteRangeLock(1, 1, offset, length, Exclusive, true, 1);
    var y := ByteRangeLock(1, 2, offset, length, Exclusive, true, 2);
    assert y in [x, y] && Refuses(y, 1, 1, offset, length, false);
    assert !AdmitsHolder([x, y], x, offset, length, false);
  }

  /** The holders of exclusive locks are admitted to a range they cover exactly if it is not empty after saturation. */
  lemma HoldersAdmittedExactly(offset: U64, length: U64)
    ensures (forall locks, x, forWrite :: AdmitsHolder(locks, x, offset, length, forWrite)) <==>
              offset < End(offset, length)
  {
    if offset < End(offset, length) {
      forall locks, x, forWrite
        ensures AdmitsHolder(locks, x, offset, length, forWrite)
      {
        HolderAdmitted(locks, x, offset, length, forWrite);
      }
    } else {
      HolderRefused(offset, length);
    }
  }

  /**
   * A foreign lock refuses exactly the accesses that lie wholly inside it and that it rules out, not those that merely
   * overlap it. Of the accesses that are empty after saturation, it refuses those that start in it or at its end.
   */
  lemma RefusedInsideOnly(x: ByteRangeLock, process: nat, offset: U64, length: U64, forWrite: bool)
    requires x.processId != process && (x.lockType == Exclusive || forWrite)
    ensures length > 0 && offset < U64_MAX ==>
              (Refused([x], x.fileId, process, offset, length, forWrite) <==> HoldsAll(x, offset, length))
    ensures length == 0 || offset == U64_MAX ==>
              (Refused([x], x.fileId, process, offset, length, forWrite) <==>
               x.offset <= offset <= x.offset + x.length)
  {
    assert x in [x];
    CoversExactly(x, offset, length);
  }

  /** So an access that overlaps a foreign exclusive lock and goes beyond it is let through. */
  lemma OverlapAdmitted()
    ensures exists x: ByteRangeLock ::
              x.lockType == Exclusive && x.Holds(5) && !Refused([x], x.fileId, x.processId + 1, 5, 10, true)
  {
    var x := ByteRangeLock(1, 1, 0, 10, Exclusive, true, 1);
    RefusedInsideOnly(x, 2, 5, 10, true);
    assert !Refused([x], x.fileId, x.processId + 1, 5, 10, true) && x.Holds(5);
  }

  // ---- Opportunistic locks ----

  datatype OplockLevel = NoOplock | Level1 | Level2 | Batch | Filter | Read | ReadHandle | ReadWrite | ReadWriteHandle

  datatype OpportunisticLock = OpportunisticLock(fileId: U64, processId: nat, level: OplockLevel, breaking: bool,
                                                 key: nat)
  {
    predicate BlocksAccess(forWrite: bool) {
      breaking ||
      match level
      case Level1 | Batch | ReadWrite | ReadWriteHandle => true
      case Level2 | Read | ReadHandle => forWrite
      case Filter | NoOplock => false
    }

    predicate NeedsBreak(forWrite: bool) {
      match level
      case Level1 | Batch | ReadWrite | ReadWriteHandle => true
      case Level2 | Read | ReadHandle => forWrite
      case _ => false
    }

    /** The level that a break leaves. */
    function Broken(forWrite: bool): OplockLevel {
      match level
      case Level1 | Batch => if forWrite then NoOplock else Level2
      case ReadWrite | ReadWriteHandle => if forWrite then NoOplock else Read
      case _ => NoOplock
    }
  }

  /** Unless a break is under way, what blocks an access is what the access breaks. */
  lemma BreaksExactly(lock: OpportunisticLock, forWrite: bool)
    ensures lock.NeedsBreak(forWrite) <==> lock.(breaking := false).BlocksAccess(forWrite)
  {
  }

  class LockManager {
    var locks: seq<ByteRangeLock>
    var oplocks: map<U64, OpportunisticLock>
    var nextKey: nat

    ghost predicate Valid()
      reads this
    {
      && NoConflicts(locks) && KeysUnique(locks, nextKey)
      && (forall f :: f in oplocks ==> !oplocks[f].breaking && oplocks[f].key < nextKey)
      && (forall f, g :: f in oplocks && g in oplocks && oplocks[f].key == oplocks[g].key ==> f == g)
    }

    constructor ()
      ensures Valid() && locks == [] && oplocks == map[]
    {
      locks, oplocks, nextKey := [], map[], 1;
    }

    /** Grant a lock exactly if it and no lock on the file exclude each other. */
    method AcquireLock(file: U64, process: nat, offset: U64, length: U64, lockType: LockType,
                       mandatory: bool) returns (r: Option<nat>)
      requires Valid()
      modifies this`locks, this`nextKey
      ensures Valid() && nextKey == old(nextKey) + 1
      ensures var x := ByteRangeLock(file, process, offset, length, lockType, mandatory, old(nextKey));
              && r.Some? == (forall y :: y in old(locks) && y.fileId == file ==> !Exclude(y, x))
              && (r.Some? ==> r.value == x.key && locks == old(locks) + [x])
              && (r.None? ==> locks == old(locks))
    {
      hide Distinct, Exclude;
      var x := ByteRangeLock(file, process, offset, length, lockType, mandatory, nextKey);
      nextKey := nextKey + 1;
      forall y | y in locks
        ensures y.ConflictsWith(x) <==> Exclude(y, x)
      {
        ConflictsExactly(y, x);
      }
      for i := 0 to |locks|
        invariant forall j :: 0 <= j < i && locks[j].fileId == file ==> !locks[j].ConflictsWith(x)
      {
        if locks[i].fileId == file && locks[i].ConflictsWith(x) {
          return None;
        }
      }
      PushDistinct(locks, x);
      locks := locks + [x];
      return Some(x.key);
    }

    /** Release the lock with a key, if there is one. */
    method ReleaseLock(key: nat) returns (ok: bool)
      requires Valid()
      modifies this`locks
      ensures Valid() && ok == (exists x :: x in old(locks) && x.key == key)
      ensures forall x :: x in locks <==> x in old(locks) && x.key != key
    {
      hide Distinct, Retain;
      for i := 0 to |locks|
        invariant forall j :: 0 <= j < i ==> locks[j].key != key
      {
        if locks[i].key == key {
          RetainMembers(locks, locks[i]);
          RetainDistinct(locks, locks[i]);
          assert locks[i] in locks;
          locks := Retain(locks, locks[i]);
          return true;
        }
      }
      return false;
    }

    method IsLocked(file: U64, process: nat, offset: U64, length: U64, forWrite: bool) returns (r: bool)
      ensures r == Refused(locks, file, process, offset, length, forWrite)
    {
      for i := 0 to |locks|
        invariant forall j :: 0 <= j < i ==> !Refuses(locks[j], file, process, offset, length, forWrite)
      {
        var x := locks[i];
        if x.fileId == file && x.processId != process && x.Covers(offset, length) {
          if x.lockType == Exclusive || forWrite {
            assert x in locks && Refuses(x, file, process, offset, length, forWrite);
            return true;
          }
        }
      }
      return false;
    }

    /** One opportunistic lock per file: with none breaking, a file that has one gets no other. */
    method RequestOplock(file: U64, process: nat, level: OplockLevel) returns (r: Option<nat>)
      requires Valid()
      modifies this`oplocks, this`nextKey
      ensures Valid() && r.Some? == (file !in old(oplocks))
      ensures oplocks ==
                if r.Some? then old(oplocks)[file := OpportunisticLock(file, process, level, false, r.value)]
                    else old(oplocks)
    {
      hide NoConflicts, Distinct;
      if file in oplocks {
        if !(level == Level2 && oplocks[file].breaking) {
          return None;
        }
      }
      var key := nextKey;
      nextKey := nextKey + 1;
      oplocks := oplocks[file := OpportunisticLock(file, process, level, false, key)];
      return Some(key);
    }

    /** Weaken a file's opportunistic lock so that the access no longer meets it. */
    method BreakOplock(file: U64, forWrite: bool) returns (broken: bool)
      requires Valid()
      modifies this`oplocks
      ensures Valid() && broken == (file in old(oplocks) && old(oplocks)[file].BlocksAccess(forWrite))
      ensures file in oplocks ==> !oplocks[file].BlocksAccess(forWrite) && !oplocks[file].NeedsBreak(forWrite)
      ensures broken && forWrite ==> file !in oplocks
      ensures broken && !forWrite ==>
                && file in oplocks && oplocks[file].BlocksAccess(true)
                && oplocks[file] == old(oplocks)[file].(level := if old(oplocks)[file].level in {Level1, Batch}
                                                                 then Level2 else Read)
      ensures !broken ==> oplocks == old(oplocks)
      ensures forall f :: f != file ==>
                (f in oplocks <==> f in old(oplocks)) && (f in oplocks ==> oplocks[f] == old(oplocks)[f])
    {
      hide NoConflicts, Distinct;
      if file in oplocks {
        BreaksExactly(oplocks[file], forWrite);
      }
      if file in oplocks && oplocks[file].NeedsBreak(forWrite) {
        oplocks := oplocks[file := oplocks[file].(breaking := true)];
        var level := oplocks[file].Broken(forWrite);
        if level == NoOplock {
          oplocks := oplocks - {file};
        } else {
          oplocks := oplocks[file := oplocks[file].(level := level, breaking := false)];
        }
        return true;
      }
      return false;
    }

    method AcknowledgeOplock(file: U64)
      requires Valid()
      modifies this`oplocks
      ensures Valid() && oplocks == old(oplocks)
    {
      hide NoConflicts, Distinct;
      if file in oplocks {
        oplocks := oplocks[file := oplocks[file].(breaking := false)];
      }
    }

    method ReleaseOplock(key: nat) returns (ok: bool)
      requires Valid()
      modifies this`oplocks
      ensures Valid() && ok == (exists f :: f in old(oplocks) && old(oplocks)[f].key == key)
      ensures forall f :: f in oplocks <==> f in old(oplocks) && old(oplocks)[f].key != key
      ensures forall f :: f in oplocks ==> oplocks[f] == old(oplocks)[f]
    {
      hide NoConflicts, Distinct;
      var found := set f | f in oplocks && oplocks[f].key == key;
      if found == {} {
        assert forall f :: f in oplocks ==> f !in found;
        return false;
      }
      var file :| file in found;
      oplocks := oplocks - {file};
      return true;
    }

    /** Everything a process holds is released, and nothing else. */
    method ReleaseProcessLocks(process: nat)
      requires Valid()
      modifies this`locks, this`oplocks
      ensures Valid() && forall x :: x in locks <==> x in old(locks) && x.processId != process
      ensures forall f :: f in oplocks <==> f in old(oplocks) && old(oplocks)[f].processId != process
      ensures forall f :: f in oplocks ==> oplocks[f] == old(oplocks)[f]
    {
      hide Distinct, Where;
      WhereKept(locks, (x: ByteRangeLock) => x.processId != process);
      locks := Where(locks, (x: ByteRangeLock) => x.processId != process);
      oplocks := map f | f in oplocks && oplocks[f].processId != process :: oplocks[f];
    }

    method ReleaseFileLocks(file: U64)
      requires Valid()
      modifies this`locks, this`oplocks
      ensures Valid() && oplocks == old(oplocks) - {file}
      ensures forall x :: x in locks <==> x in old(locks) && x.fileId != file
    {
      hide Distinct, Where;
      WhereKept(locks, (x: ByteRangeLock) => x.fileId != file);
      locks := Where(locks, (x: ByteRangeLock) => x.fileId != file);
      oplocks := oplocks - {file};
    }
  }

  /** The elements that satisfy a predicate, in order. */
  function Where<T>(list: seq<T>, keep: T -> bool): seq<T> {
    if list == [] then []
    else if keep(list[0]) then [list[0]] + Where(list[1..], keep)
    else Where(list[1..], keep)
  }

  lemma {:induction false} WhereKept<T>(list: seq<T>, keep: T -> bool)
    ensures forall x :: x in Where(list, keep) <==> x in list && keep(x)
    ensures Distinct(list) ==> Distinct(Where(list, keep))
  {
    if list != [] {
      hide Distinct;
      var kept := Where(list[1..], keep);
      WhereKept(list[1..], keep);
      assert list == [list[0]] + list[1..];
      assert ([list[0]] + kept)[1..] == kept;
      DistinctFirst(list);
      DistinctFirst([list[0]] + kept);
    }
  }

  /**
   * The last byte is the exception to mutual exclusion: saturation leaves it out of every range, so two processes
   * lock it exclusively, and then each is refused on its own byte.
   */
  method LastByteLockedTwice() returns (manager: LockManager, first: Option<nat>, second: Option<nat>, refused: bool)
    ensures fresh(manager) && manager.Valid() && first.Some? && second.Some? && refused
    ensures exists x, y :: manager.locks == [x, y] && x.fileId == y.fileId && x.processId == 1 && y.processId == 2
              && x.lockType == Exclusive && y.lockType == Exclusive && x.Holds(U64_MAX) && y.Holds(U64_MAX)
  {
    manager := new LockManager();
    first := manager.AcquireLock(1, 1, U64_MAX, 1, Exclusive, true);
    second := manager.AcquireLock(1, 2, U64_MAX, 1, Exclusive, true);
    assert manager.locks == [manager.locks[0], manager.locks[1]];
    refused := manager.IsLocked(1, 1, U64_MAX, 1, false);
    assert manager.locks[1] in manager.locks && Refuses(manager.locks[1], 1, 1, U64_MAX, 1, false);
  }
}
