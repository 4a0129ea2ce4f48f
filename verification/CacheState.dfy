/** The data of the block cache in `fs/cache.rs` and the invariants that tie its parts together. */
module CacheState {
  import opened ByteRanges
  import opened Bytes
  import opened Lists

  const CACHE_BLOCK_SIZE: nat := BLOCK_SIZE
  const MAX_CACHE_BLOCKS: nat := 16384
  const READAHEAD_MIN: nat := 4
  const READAHEAD_MAX: nat := 32
  const SEQUENTIAL_THRESHOLD: nat := 3

  /** The index that stands for "no block" (usize::MAX). */
  const NIL: nat := 0xffff_ffff_ffff_ffff

  datatype CoherencyMode = NoCoherency | WriteThrough | WriteBackInvalidate

  datatype BlockState = Free | Clean | Dirty | Reading | Writing | Pinned | Locked

  datatype Page = Page(bytes: seq<Byte>)

  /** Contents of one block. */
  type Data = p: Page | |p.bytes| == 4096 witness Page(Repeat(0, 4096))

  const ZERO_PAGE: Data := Page(Repeat(0, 4096))

  /** File and block number under which a block is cached. */
  type Key = (nat, nat)

  datatype CacheBlock = CacheBlock(
    fileId: nat, blockNumber: nat, state: BlockState, refCount: nat, accessTime: nat, lruPrev: nat, lruNext: nat)
  {
    predicate IsDirty() {
      state == Dirty
    }

    predicate IsPinned() {
      refCount > 0 || state == Pinned
    }

    predicate CanEvict() {
      !IsPinned() && state != Locked && state != Reading && state != Writing
    }

    function Key(): Key {
      (fileId, blockNumber)
    }
  }

  /** Sequential-access tracking of one file. */
  datatype ReadAhead = ReadAhead(lastBlock: nat, sequentialCount: nat, windowSize: nat, predictedNext: nat)
  {
    function Update(blockNumber: nat): (r: ReadAhead)
      ensures r.predictedNext == blockNumber + 1 && r.lastBlock == blockNumber
      ensures windowSize <= READAHEAD_MAX ==> r.windowSize <= READAHEAD_MAX
    {
      if blockNumber == lastBlock + 1 then
        var count := sequentialCount + 1;
        var window := if count < SEQUENTIAL_THRESHOLD then windowSize
                      else if windowSize * 2 < READAHEAD_MAX then windowSize * 2 else READAHEAD_MAX;
        ReadAhead(blockNumber, count, window, blockNumber + 1)
      else
        ReadAhead(blockNumber, 0, READAHEAD_MIN, blockNumber + 1)
    }

    predicate ShouldReadAhead() {
      sequentialCount >= SEQUENTIAL_THRESHOLD
    }
  }

  /** The tracking after `k` more accesses, each to the block after the one before. */
  ghost function Sequential(r: ReadAhead, k: nat): ReadAhead {
    if k == 0 then r else Sequential(r, k - 1).Update(Sequential(r, k - 1).lastBlock + 1)
  }

  /**
   * A reader that jumps to a block and goes on in sequence is read ahead from the third further block on, and the
   * window is then doubled at every block up to 32.
   */
  lemma {:induction false} WindowGrows(r: ReadAhead, b: nat, k: nat)
    requires b != r.lastBlock + 1
    ensures var s := Sequential(r.Update(b), k);
            && s.lastBlock == b + k && s.predictedNext == b + k + 1 && s.sequentialCount == k
            && (s.ShouldReadAhead() <==> k >= 3)
            && s.windowSize == if k < 3 then 4 else if k == 3 then 8 else if k == 4 then 16 else 32
  {
    if k > 0 {
      WindowGrows(r, b, k - 1);
    }
  }

  // ---- The LRU list ----

  /** Entry `k` of the list, NIL beyond either end. */
  ghost function At(order: seq<nat>, k: int): nat {
    if 0 <= k < |order| then order[k] else NIL
  }

  /** head, tail and the prev/next links spell exactly the list `order`, most recent first. */
  ghost predicate Linked(blocks: seq<CacheBlock>, head: nat, tail: nat, order: seq<nat>) {
    && |blocks| == MAX_CACHE_BLOCKS
    && Distinct(order)
    && (forall k :: 0 <= k < |order| ==> order[k] < |blocks|)
    && head == At(order, 0)
    && tail == At(order, |order| - 1)
    && (forall k {:trigger LinkedAt(blocks, order, k)} :: LinkedAt(blocks, order, k))
  }

  /** Entry `k` of the list points at its neighbours. */
  ghost predicate LinkedAt(blocks: seq<CacheBlock>, order: seq<nat>, k: int) {
    0 <= k < |order| && order[k] < |blocks| ==>
      blocks[order[k]].lruPrev == At(order, k - 1) && blocks[order[k]].lruNext == At(order, k + 1)
  }

  ghost function IndexOf(s: seq<nat>, x: nat): (k: nat)
    requires x in s
    ensures k < |s| && s[k] == x
  {
    if s[0] == x then 0 else 1 + IndexOf(s[1..], x)
  }

  ghost function Without(s: seq<nat>, x: nat): (r: seq<nat>)
    requires x in s
    ensures |r| == |s| - 1
  {
    var k := IndexOf(s, x);
    s[..k] + s[k + 1..]
  }

  lemma WithoutMembers(s: seq<nat>, x: nat)
    requires x in s && Distinct(s)
    ensures Distinct(Without(s, x))
    ensures forall y :: y in Without(s, x) <==> y in s && y != x
  {
    var k, r := IndexOf(s, x), Without(s, x);
    forall y | y in s && y != x
      ensures y in r
    {
      var j := IndexOf(s, y);
      assert r[if j < k then j else j - 1] == y;
    }
    forall y | y in r
      ensures y in s && y != x
    {
      var j := IndexOf(r, y);
      assert Differ(s, k, if j < k then j else j + 1);
    }
    forall i, j | i != j
      ensures Differ(r, i, j)
    {
      assert Differ(s, if i < k then i else i + 1, if j < k then j else j + 1);
    }
  }

  /** Two block tables that differ at most in the links. */
  ghost predicate SameButLinks(a: seq<CacheBlock>, b: seq<CacheBlock>) {
    && |a| == |b|
    && forall i :: 0 <= i < |a| ==> b[i] == a[i].(lruPrev := b[i].lruPrev, lruNext := b[i].lruNext)
  }

  /** A list of distinct numbers below `n` has at most `n` entries. */
  lemma DistinctBounded(s: seq<nat>, n: nat)
    requires Distinct(s) && forall k :: 0 <= k < |s| ==> s[k] < n
    ensures |s| <= n
  {
    var elements := set k | 0 <= k < |s| :: s[k];
    DistinctSize(s);
    BoundedSet(elements, n);
  }

  lemma {:induction false} DistinctSize(s: seq<nat>)
    requires Distinct(s)
    ensures |(set k | 0 <= k < |s| :: s[k])| == |s|
  {
    var elements := set k | 0 <= k < |s| :: s[k];
    if s != [] {
      var t := s[..|s| - 1];
      var rest := set k | 0 <= k < |t| :: t[k];
      forall i, j | i != j
        ensures Differ(t, i, j)
      {
        assert Differ(s, i, j);
      }
      DistinctSize(t);
      assert forall k :: 0 <= k < |t| ==> t[k] == s[k] && Differ(s, k, |s| - 1);
      assert elements == rest + {s[|s| - 1]};
    }
  }

  lemma {:induction false} BoundedSet(s: set<nat>, n: nat)
    requires forall x :: x in s ==> x < n
    ensures |s| <= n
  {
    if n == 0 {
      assert s == {};
    } else {
      BoundedSet(s - {n - 1}, n - 1);
      assert s <= (s - {n - 1}) + {n - 1};
      SubsetSize(s, (s - {n - 1}) + {n - 1});
    }
  }

  lemma {:induction false} SubsetSize<T>(a: set<T>, b: set<T>)
    requires a <= b
    ensures |a| <= |b|
  {
    assert b == a + (b - a);
  }

  // ---- The list operations on values ----

  /** The block table after block `i` is linked in front of `head`. */
  ghost function PushFront(blocks: seq<CacheBlock>, head: nat, i: nat): seq<CacheBlock>
    requires i < |blocks| && (head != NIL ==> head < |blocks|)
  {
    var b := blocks[i := blocks[i].(lruPrev := NIL, lruNext := head)];
    if head == NIL then b else b[head := b[head].(lruPrev := i)]
  }

  lemma PushFrontLinks(blocks: seq<CacheBlock>, head: nat, tail: nat, order: seq<nat>, i: nat)
    requires Linked(blocks, head, tail, order) && i < |blocks| && i !in order
    ensures Linked(PushFront(blocks, head, i), i, if head == NIL then i else tail, [i] + order)
    ensures SameButLinks(blocks, PushFront(blocks, head, i))
  {
    var after, o := PushFront(blocks, head, i), [i] + order;
    forall j, k | j != k
      ensures Differ(o, j, k)
    {
      assert Differ(order, j - 1, k - 1);
    }
    assert forall k :: 1 <= k < |o| ==> o[k] == order[k - 1];
    forall k
      ensures LinkedAt(after, o, k)
    {
      assert LinkedAt(blocks, order, k - 1);
      assert k > 1 ==> Differ(order, 0, k - 1);
    }
  }

  ghost predicate Linkable(blocks: seq<CacheBlock>, i: nat) {
    && i < |blocks|
    && (blocks[i].lruPrev == NIL || blocks[i].lruPrev < |blocks|)
    && (blocks[i].lruNext == NIL || blocks[i].lruNext < |blocks|)
  }

  /** The block table after block `i` is unlinked: its neighbours point at each other. */
  ghost function Unlink(blocks: seq<CacheBlock>, i: nat): seq<CacheBlock>
    requires Linkable(blocks, i)
  {
    var prev, next := blocks[i].lruPrev, blocks[i].lruNext;
    var b1 := if prev == NIL then blocks else blocks[prev := blocks[prev].(lruNext := next)];
    var b2 := if next == NIL then b1 else b1[next := b1[next].(lruPrev := prev)];
    b2[i := b2[i].(lruPrev := NIL, lruNext := NIL)]
  }

  /** What unlinking does to one block. */
  lemma UnlinkPointwise(blocks: seq<CacheBlock>, i: nat, x: nat)
    requires |blocks| == MAX_CACHE_BLOCKS && Linkable(blocks, i) && x < |blocks| && x != i
    requires blocks[i].lruPrev == NIL || blocks[i].lruPrev != blocks[i].lruNext
    ensures Unlink(blocks, i)[x] == blocks[x].(
              lruPrev := if x == blocks[i].lruNext then blocks[i].lruPrev else blocks[x].lruPrev,
              lruNext := if x == blocks[i].lruPrev then blocks[i].lruNext else blocks[x].lruNext)
  {
  }

  lemma WithoutAt(order: seq<nat>, i: nat, k: int)
    requires i in order && 0 <= k < |order| - 1
    ensures Without(order, i)[k] == order[if k < IndexOf(order, i) then k else k + 1]
  {
  }

  lemma UnlinkLinks(blocks: seq<CacheBlock>, head: nat, tail: nat, order: seq<nat>, i: nat)
    requires Linked(blocks, head, tail, order) && i in order
    ensures Linkable(blocks, i)
    ensures var prev, next := blocks[i].lruPrev, blocks[i].lruNext;
            Linked(Unlink(blocks, i), if prev == NIL then next else head, if next == NIL then prev else tail,
                   Without(order, i))
    ensures SameButLinks(blocks, Unlink(blocks, i))
  {
    hide Unlink, Without, Distinct, LinkedAt, IndexOf;
    Neighbours(blocks, head, tail, order, i);
    UnlinkSame(blocks, i);
    WithoutMembers(order, i);
    UnlinkEnds(blocks, head, tail, order, i);
    var after, o := Unlink(blocks, i), Without(order, i);
    forall k
      ensures LinkedAt(after, o, k) && (0 <= k < |o| ==> o[k] < |blocks|)
    {
      UnlinkAt(blocks, head, tail, order, i, k);
    }
  }

  /** The neighbours of a listed block are others, and not the same. */
  lemma Neighbours(blocks: seq<CacheBlock>, head: nat, tail: nat, order: seq<nat>, i: nat)
    requires Linked(blocks, head, tail, order) && i in order
    ensures Linkable(blocks, i) && (blocks[i].lruPrev == NIL || blocks[i].lruPrev != blocks[i].lruNext)
    ensures var m := IndexOf(order, i);
            blocks[i].lruPrev == At(order, m - 1) && blocks[i].lruNext == At(order, m + 1)
  {
    var m: int := IndexOf(order, i);
    assert LinkedAt(blocks, order, m);
    assert Differ(order, m - 1, m + 1);
  }

  lemma UnlinkEnds(blocks: seq<CacheBlock>, head: nat, tail: nat, order: seq<nat>, i: nat)
    requires Linked(blocks, head, tail, order) && i in order
    ensures var prev, next, o := blocks[i].lruPrev, blocks[i].lruNext, Without(order, i);
            && (if prev == NIL then next else head) == At(o, 0)
            && (if next == NIL then prev else tail) == At(o, |o| - 1)
  {
    Neighbours(blocks, head, tail, order, i);
    hide Distinct, LinkedAt;
    var o := Without(order, i);
    if o != [] {
      WithoutAt(order, i, 0);
      WithoutAt(order, i, |o| - 1);
    }
  }

  lemma UnlinkAt(blocks: seq<CacheBlock>, head: nat, tail: nat, order: seq<nat>, i: nat, k: int)
    requires Linked(blocks, head, tail, order) && i in order && Linkable(blocks, i)
    ensures var o := Without(order, i); LinkedAt(Unlink(blocks, i), o, k) && (0 <= k < |o| ==> o[k] < |blocks|)
  {
    hide Distinct, Without, Unlink;
    if 0 <= k < |order| - 1 {
      UnlinkStep(blocks, head, tail, order, i, k);
    }
  }

  lemma UnlinkSame(blocks: seq<CacheBlock>, i: nat)
    requires |blocks| == MAX_CACHE_BLOCKS && Linkable(blocks, i)
    requires blocks[i].lruPrev == NIL || blocks[i].lruPrev != blocks[i].lruNext
    ensures SameButLinks(blocks, Unlink(blocks, i))
  {
    var after := Unlink(blocks, i);
    forall x | 0 <= x < |blocks| && x != i
      ensures after[x] == blocks[x].(lruPrev := after[x].lruPrev, lruNext := after[x].lruNext)
    {
      UnlinkPointwise(blocks, i, x);
    }
  }

  lemma UnlinkStep(blocks: seq<CacheBlock>, head: nat, tail: nat, order: seq<nat>, i: nat, k: int)
    requires Linked(blocks, head, tail, order) && i in order && 0 <= k < |order| - 1
    requires Linkable(blocks, i)
    ensures var after, o := Unlink(blocks, i), Without(order, i);
            o[k] < |blocks| && after[o[k]].lruPrev == At(o, k - 1) && after[o[k]].lruNext == At(o, k + 1)
  {
    var m: int := IndexOf(order, i);
    var j := if k < m then k else k + 1;
    WithoutAt(order, i, k);
    if k > 0 {
      WithoutAt(order, i, k - 1);
    }
    if k + 1 < |order| - 1 {
      WithoutAt(order, i, k + 1);
    }
    assert LinkedAt(blocks, order, m) && LinkedAt(blocks, order, j);
    assert Differ(order, m, j) && Differ(order, m - 1, m + 1);
    assert (j != m - 1 ==> Differ(order, j, m - 1)) && (j != m + 1 ==> Differ(order, j, m + 1));
    UnlinkPointwise(blocks, i, order[j]);
  }
}
