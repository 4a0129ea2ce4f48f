/** The streaming hashes of `crypto/hash.rs`: buffering and padding over any compression function. */
module Hash {
  import opened Arith
  import opened Bytes

  /** A Merkle-Damgard hash. The wide ones use 128-byte blocks and a 16-byte length field. */
  datatype Algorithm<!St> = Algorithm(
    wide: bool, littleEndian: bool, init: St, compress: (St, seq<Byte>) -> St, encode: St -> seq<Byte>)
  {
    function Block(): nat {
      if wide then 128 else 64
    }

    /** How far `n` bytes reach into their last block. */
    function Rest(n: nat): (r: nat)
      ensures r < Block() && r <= n
    {
      if wide then n % 128 else n % 64
    }

    function Field(): nat {
      if wide then 16 else 8
    }

    /** The values of the message length counter: a u64, or a u128 in the wide hashes. */
    function CounterSize(): (n: nat)
      ensures n > 0
    {
      if wide then 0x1_0000_0000_0000_0000_0000_0000_0000_0000 else 0x1_0000_0000_0000_0000
    }
  }

  // ---- The standard's definition ----

  /** The chaining value after whole blocks. */
  ghost function Fold<St>(alg: Algorithm<St>, blocks: seq<Byte>): St
    requires alg.Rest(|blocks|) == 0
  {
    if blocks == [] then alg.init
    else
      var n := |blocks| - alg.Block();
      alg.compress(Fold(alg, blocks[..n]), blocks[n..])
  }

  function Reversed(s: seq<Byte>): (r: seq<Byte>)
    ensures |r| == |s| && forall i :: 0 <= i < |s| ==> r[i] == s[|s| - 1 - i]
  {
    if s == [] then [] else [s[|s| - 1]] + Reversed(s[..|s| - 1])
  }

  /** The message length in bits, as far as the length field can hold it. */
  function LengthField<St>(alg: Algorithm<St>, length: nat): (s: seq<Byte>)
    ensures |s| == alg.Field()
  {
    var s := ToBigEndian((length * 8) % alg.CounterSize(), alg.Field());
    if alg.littleEndian then Reversed(s) else s
  }

  /** The fewest zero bytes that leave room for the length field at the end of a block. */
  function ZeroCount<St>(alg: Algorithm<St>, length: nat): nat {
    var used := alg.Rest(length) + 1 + alg.Field();
    if used <= alg.Block() then alg.Block() - used else 2 * alg.Block() - used
  }

  lemma ZerosFit<St>(alg: Algorithm<St>, length: nat, k: nat)
    requires k == ZeroCount(alg, length)
    ensures alg.Rest(length + 1 + k + alg.Field()) == 0
  {
    if alg.wide {
      WholeBlocks(length, 128, 17 + k);
    } else {
      WholeBlocks(length, 64, 9 + k);
    }
  }

  lemma WholeBlocks(n: nat, b: nat, more: nat)
    requires b > 0 && (n % b + more == b || n % b + more == 2 * b)
    ensures (n + more) % b == 0
  {
    var blocks := n / b + (if n % b + more == b then 1 else 2);
    Distribute(n / b, blocks - n / b, b);
    ModUnique(n + more, b, blocks, 0);
  }

  /** No smaller number of zeros would do. */
  lemma ZerosLeast<St>(alg: Algorithm<St>, length: nat, j: nat)
    requires alg.Rest(length + 1 + j + alg.Field()) == 0
    ensures ZeroCount(alg, length) <= j
  {
    if alg.wide {
      assert (length + 17 + j) % 128 == 0;
    } else {
      assert (length + 9 + j) % 64 == 0;
    }
  }

  ghost function Padded<St>(alg: Algorithm<St>, message: seq<Byte>): (s: seq<Byte>)
    ensures alg.Rest(|s|) == 0
  {
    ZerosFit(alg, |message|, ZeroCount(alg, |message|));
    message + [0x80] + Repeat(0, ZeroCount(alg, |message|)) + LengthField(alg, |message|)
  }

  /** The hash of a message, as the standards define it. */
  ghost function Digest<St>(alg: Algorithm<St>, message: seq<Byte>): seq<Byte> {
    alg.encode(Fold(alg, Padded(alg, message)))
  }

  lemma FoldStep<St>(alg: Algorithm<St>, blocks: seq<Byte>, block: seq<Byte>)
    requires alg.Rest(|blocks|) == 0 && |block| == alg.Block()
    ensures alg.Rest(|blocks + block|) == 0
    ensures Fold(alg, blocks + block) == alg.compress(Fold(alg, blocks), block)
  {
    assert (blocks + block)[..|blocks|] == blocks;
    assert (blocks + block)[|blocks|..] == block;
  }

  // ---- The streaming hasher ----

  /** All but an incomplete block is compressed; that one starts the buffer, whose other bytes may be anything. */
  ghost predicate Holds<St>(alg: Algorithm<St>, state: St, message: seq<Byte>, buffer: seq<Byte>) {
    var rest := alg.Rest(|message|);
    && |buffer| == alg.Block() && buffer[..rest] == message[|message| - rest..]
    && state == Fold(alg, message[..|message| - rest])
  }

  lemma HeldLength<St>(alg: Algorithm<St>, state: St, message: seq<Byte>, buffer: seq<Byte>)
    requires Holds(alg, state, message, buffer)
    ensures |buffer| == alg.Block()
  {
  }

  lemma Remainders<St>(alg: Algorithm<St>, n: nat, count: nat, more: nat)
    requires count == n % alg.CounterSize()
    ensures (count + more) % alg.CounterSize() == (n + more) % alg.CounterSize()
    ensures alg.Rest(count) == alg.Rest(n)
  {
    ModPlus(n, alg.CounterSize(), more);
    if alg.wide {
      CongFromDiff(n, count, n / alg.CounterSize() * 0x0200_0000_0000_0000_0000_0000_0000_0000, 128);
    } else {
      CongFromDiff(n, count, n / alg.CounterSize() * 0x0400_0000_0000_0000, 64);
    }
  }

  lemma RestGrows<St>(alg: Algorithm<St>, n: nat, more: nat)
    ensures alg.Rest(n - alg.Rest(n)) == 0
    ensures alg.Rest(n) + more < alg.Block() ==> alg.Rest(n + more) == alg.Rest(n) + more
    ensures alg.Rest(n) + more == alg.Block() ==> alg.Rest(n + more) == 0
  {
    ModGrows(n, alg.Block(), more);
  }

  lemma ModGrows(n: nat, b: nat, more: nat)
    requires b > 0
    ensures (n - n % b) % b == 0
    ensures n % b + more < b ==> (n + more) % b == n % b + more
    ensures n % b + more == b ==> (n + more) % b == 0
  {
    var q, r := n / b, n % b;
    ModUnique(n - r, b, q, 0);
    if r + more < b {
      ModUnique(n + more, b, q, r + more);
    } else if r + more == b {
      assert (q + 1) * b == q * b + b;
      ModUnique(n + more, b, q + 1, 0);
    }
  }

  lemma HoldsPart<St>(alg: Algorithm<St>, state: St, message: seq<Byte>, buffer: seq<Byte>, piece: seq<Byte>,
                      buffer': seq<Byte>)
    requires Holds(alg, state, message, buffer) && |buffer'| == |buffer|
    requires alg.Rest(|message|) + |piece| < alg.Block()
    requires buffer'[..alg.Rest(|message|) + |piece|] == buffer[..alg.Rest(|message|)] + piece
    ensures Holds(alg, state, message + piece, buffer')
  {
    hide Fold, Algorithm<St>.Rest;
    RestGrows(alg, |message|, |piece|);
    var full := |message| - alg.Rest(|message|);
    assert (message + piece)[..full] == message[..full];
    assert (message + piece)[full..] == message[full..] + piece;
  }

  lemma HoldsBlock<St>(alg: Algorithm<St>, state: St, message: seq<Byte>, buffer: seq<Byte>, piece: seq<Byte>,
                       block: seq<Byte>)
    requires Holds(alg, state, message, buffer)
    requires alg.Rest(|message|) + |piece| == alg.Block()
    requires block == buffer[..alg.Rest(|message|)] + piece
    ensures forall buffer': seq<Byte> | |buffer'| == alg.Block() :: Holds(alg, alg.compress(state, block),
                                                                          message + piece, buffer')
  {
    hide Fold, Algorithm<St>.Rest;
    RestGrows(alg, |message|, |piece|);
    var full := |message| - alg.Rest(|message|);
    assert message == message[..full] + message[full..];
    assert message + piece == message[..full] + block;
    FoldStep(alg, message[..full], block);
    var whole := message + piece;
    assert alg.Rest(|whole|) == 0 && whole[..|whole| - 0] == whole && whole[|whole| - 0..] == [];
  }

  /** The padding fits into the block that holds the rest of the message. */
  lemma PaddedOne<St>(alg: Algorithm<St>, message: seq<Byte>, state: St, buffer: seq<Byte>, block: seq<Byte>)
    requires Holds(alg, state, message, buffer)
    requires var rest := alg.Rest(|message|);
             && rest < alg.Block() - alg.Field()
             && block == buffer[..rest] + [0x80] + Repeat(0, alg.Block() - alg.Field() - rest - 1)
                         + LengthField(alg, |message|)
    ensures |block| == alg.Block() && Fold(alg, Padded(alg, message)) == alg.compress(state, block)
  {
    hide LengthField, Fold, Algorithm<St>.Rest;
    RestGrows(alg, |message|, 0);
    var rest := alg.Rest(|message|);
    var full := |message| - rest;
    assert ZeroCount(alg, |message|) == alg.Block() - alg.Field() - rest - 1;
    assert message == message[..full] + message[full..];
    assert Padded(alg, message) == message[..full] + block;
    FoldStep(alg, message[..full], block);
  }

  /** The padding runs into a second block. */
  lemma PaddedTwo<St>(alg: Algorithm<St>, message: seq<Byte>, state: St, buffer: seq<Byte>, one: seq<Byte>,
                      two: seq<Byte>)
    requires Holds(alg, state, message, buffer)
    requires var rest := alg.Rest(|message|);
             && rest >= alg.Block() - alg.Field()
             && one == buffer[..rest] + [0x80] + Repeat(0, alg.Block() - rest - 1)
             && two == Repeat(0, alg.Block() - alg.Field()) + LengthField(alg, |message|)
    ensures |one| == |two| == alg.Block()
    ensures Fold(alg, Padded(alg, message)) == alg.compress(alg.compress(state, one), two)
  {
    hide LengthField, Fold, Algorithm<St>.Rest;
    RestGrows(alg, |message|, 0);
    var rest := alg.Rest(|message|);
    var full := |message| - rest;
    assert ZeroCount(alg, |message|) == (alg.Block() - rest - 1) + (alg.Block() - alg.Field());
    assert message == message[..full] + message[full..];
    assert Padded(alg, message) == message[..full] + one + two;
    FoldStep(alg, message[..full], one);
    FoldStep(alg, message[..full] + one, two);
  }

  /** The length over the zeros at the end of the only block of padding. */
  lemma OnlyBlock<St>(alg: Algorithm<St>, rest: seq<Byte>, padded: seq<Byte>, length: seq<Byte>, block: seq<Byte>)
    requires |length| == alg.Field() && |rest| < alg.Block() - alg.Field()
    requires padded == rest + [0x80] + Repeat(0, alg.Block() - |rest| - 1)
    requires block == padded[..alg.Block() - alg.Field()] + length + padded[alg.Block()..]
    ensures block == rest + [0x80] + Repeat(0, alg.Block() - alg.Field() - |rest| - 1) + length
  {
  }

  lemma SecondBlock<St>(alg: Algorithm<St>, padded: seq<Byte>, length: seq<Byte>, block: seq<Byte>)
    requires |length| == alg.Field() && padded == Repeat(0, alg.Block())
    requires block == padded[..alg.Block() - alg.Field()] + length + padded[alg.Block()..]
    ensures block == Repeat(0, alg.Block() - alg.Field()) + length
  {
  }

  class Hasher<St> {
    const alg: Algorithm<St>
    var state: St
    var count: nat
    const buffer: array<Byte>
    ghost var message: seq<Byte>

    ghost predicate Valid()
      reads this, buffer
    {
      buffer.Length == alg.Block() && count == |message| % alg.CounterSize() && Holds(alg, state, message, buffer[..])
    }

    constructor (alg: Algorithm<St>)
      ensures Valid() && message == [] && this.alg == alg && fresh(buffer)
    {
      this.alg := alg;
      state, count := alg.init, 0;
      buffer := new Byte[alg.Block()](_ => 0);
      message := [];
    }

    /** Take in some more of the message. */
    method Update(data: seq<Byte>)
      requires Valid()
      modifies this, buffer
      ensures Valid() && message == old(message) + data
    {
      hide Holds, Fold;
      Remainders(alg, |message|, count, |data|);
      var offset := alg.Rest(count);
      count := (count + |data|) % alg.CounterSize();
      var idx := 0;
      if offset > 0 {
        idx := FillBuffer(data, offset);
      }
      if idx < |data| {
        TakeBlocks(data, idx, old(message));
      }
      assert data[..|data|] == data;
    }

    /** Complete the block in the buffer as far as the data reaches. */
    method FillBuffer(data: seq<Byte>, offset: nat) returns (idx: nat)
      requires Holds(alg, state, message, buffer[..]) && offset == alg.Rest(|message|) > 0
      modifies this`state, this`message, buffer
      ensures idx <= |data| && message == old(message) + data[..idx] && Holds(alg, state, message, buffer[..])
      ensures idx < |data| ==> alg.Rest(|message|) == 0
    {
      hide Holds, Fold;
      HeldLength(alg, state, message, buffer[..]);
      var space := alg.Block() - offset;
      idx := if |data| < space then |data| else space;
      ghost var before := buffer[..];
      CopyIn(buffer, offset, data[..idx]);
      if offset + idx == alg.Block() {
        HoldsBlock(alg, state, message, before, data[..idx], buffer[..]);
        RestGrows(alg, |message|, idx);
        state := alg.compress(state, buffer[..]);
      } else {
        HoldsPart(alg, state, message, before, data[..idx], buffer[..]);
      }
      message := message + data[..idx];
    }

    /** Compress the whole blocks of the data and keep the rest. */
    method TakeBlocks(data: seq<Byte>, start: nat, ghost before: seq<Byte>)
      requires buffer.Length == alg.Block() && Holds(alg, state, message, buffer[..]) && start < |data|
            && alg.Rest(|message|) == 0
      requires message == before + data[..start]
      modifies this`state, this`message, buffer
      ensures message == before + data && Holds(alg, state, message, buffer[..])
    {
      hide Holds, Fold;
      var block, idx := alg.Block(), start;
      while idx + block <= |data|
        invariant idx <= |data| && message == before + data[..idx] && alg.Rest(|message|) == 0
        invariant Holds(alg, state, message, buffer[..])
      {
        TakeBlock(data[idx..idx + block]);
        Extend(before, data, idx, idx + block);
        idx := idx + block;
      }
      if idx < |data| {
        KeepRest(data[idx..]);
      }
      Extend(before, data, idx, |data|);
    }

    method TakeBlock(piece: seq<Byte>)
      requires buffer.Length == alg.Block() && Holds(alg, state, message, buffer[..])
      requires alg.Rest(|message|) == 0 && |piece| == alg.Block()
      modifies this`state, this`message
      ensures message == old(message) + piece && alg.Rest(|message|) == 0 && Holds(alg, state, message, buffer[..])
    {
      hide Holds, Fold;
      assert buffer[..0] + piece == piece;
      HoldsBlock(alg, state, message, buffer[..], piece, piece);
      state := alg.compress(state, piece);
      message := message + piece;
    }

    method KeepRest(piece: seq<Byte>)
      requires buffer.Length == alg.Block() && Holds(alg, state, message, buffer[..])
      requires alg.Rest(|message|) == 0 && |piece| < alg.Block()
      modifies this`message, buffer
      ensures message == old(message) + piece && Holds(alg, state, message, buffer[..])
    {
      hide Holds, Fold;
      ghost var kept := buffer[..];
      CopyIn(buffer, 0, piece);
      HoldsPart(alg, state, message, kept, piece, buffer[..]);
      message := message + piece;
    }

    /** The length field for everything taken in. */
    method LengthBytes() returns (length: seq<Byte>)
      requires count == |message| % alg.CounterSize()
      ensures length == LengthField(alg, |message|)
    {
      BitCount(alg, |message|);
      var bits := (count * 8) % alg.CounterSize();
      length := ToBigEndian(bits, alg.Field());
      if alg.littleEndian {
        length := Reversed(length);
      }
    }

    /** The digest of everything taken in. */
    method Finalize() returns (digest: seq<Byte>)
      requires Valid()
      modifies this, buffer
      ensures digest == Digest(alg, old(message))
    {
      hide Holds, Fold, Padded, LengthField, Algorithm<St>.Rest;
      Remainders(alg, |message|, count, 0);
      var length := LengthBytes();
      var offset := alg.Rest(count);
      ghost var before, start := buffer[..], state;
      PadBuffer(buffer, offset);
      ghost var one := buffer[..];
      if offset >= alg.Block() - alg.Field() {
        state := alg.compress(state, buffer[..]);
        Clear(buffer);
      }
      ghost var padded := buffer[..];
      CopyIn(buffer, alg.Block() - alg.Field(), length);
      if offset >= alg.Block() - alg.Field() {
        SecondBlock(alg, padded, length, buffer[..]);
        PaddedTwo(alg, message, start, before, one, buffer[..]);
      } else {
        OnlyBlock(alg, before[..offset], padded, length, buffer[..]);
        PaddedOne(alg, message, start, before, buffer[..]);
      }
      state := alg.compress(state, buffer[..]);
      digest := alg.encode(state);
    }
  }

  method Clear(buffer: array<Byte>)
    modifies buffer
    ensures buffer[..] == Repeat(0, buffer.Length)
  {
    forall i | 0 <= i < buffer.Length {
      buffer[i] := 0;
    }
  }

  ghost function Concat(chunks: seq<seq<Byte>>): seq<Byte> {
    if chunks == [] then [] else Concat(chunks[..|chunks| - 1]) + chunks[|chunks| - 1]
  }

  /** However a message is cut into pieces, hashing the pieces in order gives the digest of the message. */
  method HashChunks<St>(alg: Algorithm<St>, chunks: seq<seq<Byte>>) returns (digest: seq<Byte>)
    ensures digest == Digest(alg, Concat(chunks))
  {
    var hasher := new Hasher<St>(alg);
    for i := 0 to |chunks|
      invariant hasher.Valid() && fresh(hasher) && fresh(hasher.buffer) && hasher.alg == alg
      invariant hasher.message == Concat(chunks[..i])
    {
      hasher.Update(chunks[i]);
      assert chunks[..i + 1][..i] == chunks[..i];
    }
    assert chunks[..|chunks|] == chunks;
    digest := hasher.Finalize();
  }

  /** The counter overflows where its bit count does. */
  lemma BitCount<St>(alg: Algorithm<St>, n: nat)
    ensures ((n % alg.CounterSize()) * 8) % alg.CounterSize() == (n * 8) % alg.CounterSize()
  {
    var c := alg.CounterSize();
    assert n * 8 == (n % c) * 8 + (n / c * 8) * c;
    CongFromDiff(n * 8, (n % c) * 8, n / c * 8, c);
  }

  method PadBuffer(buffer: array<Byte>, offset: nat)
    requires offset < buffer.Length
    modifies buffer
    ensures buffer[..] == old(buffer[..offset]) + [0x80] + Repeat(0, buffer.Length - offset - 1)
  {
    buffer[offset] := 0x80;
    for i := offset + 1 to buffer.Length
      invariant buffer[..i] == old(buffer[..offset]) + [0x80] + Repeat(0, i - offset - 1)
    {
      buffer[i] := 0;
    }
  }

  lemma Extend(before: seq<Byte>, data: seq<Byte>, i: nat, j: nat)
    requires i <= j <= |data|
    ensures before + data[..i] + data[i..j] == before + data[..j]
    ensures j == |data| ==> before + data[..i] + data[i..] == before + data
  {
    assert data[..i] + data[i..j] == data[..j];
  }

  method CopyIn(buffer: array<Byte>, at: nat, data: seq<Byte>)
    requires at + |data| <= buffer.Length
    modifies buffer
    ensures buffer[..] == old(buffer[..at]) + data + old(buffer[at + |data|..])
  {
    forall i | 0 <= i < |data| {
      buffer[at + i] := data[i];
    }
  }
}
