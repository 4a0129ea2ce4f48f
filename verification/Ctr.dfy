/** The counter block and the CTR mode of `crypto/cipher.rs`. */
module Ctr {
  import opened Arith
  import opened Bytes
  import opened AesField
  import opened Aes
  import opened AesCipher

  // ---- The counter ----

  function Naturals(s: seq<bv8>): (r: seq<Byte>)
    ensures |r| == |s| && forall i :: 0 <= i < |s| ==> r[i] == s[i] as nat
  {
    seq(|s|, i requires 0 <= i < |s| => s[i] as nat)
  }

  lemma Successor(x: bv8)
    ensures x as nat < 256
    ensures if x == 0xff then x + 1 == 0 && x as nat == 255 else x + 1 != 0 && (x + 1) as nat == x as nat + 1
  {
  }

  /** A byte as eight bits, counted up from zero. */
  function Octet(b: Byte): (x: bv8)
    ensures x as nat == b
  {
    if b == 0 then 0 else Successor(Octet(b - 1)); Octet(b - 1) + 1
  }

  function Octets(s: seq<Byte>): (r: seq<bv8>)
    ensures |r| == |s| && forall i :: 0 <= i < |s| ==> r[i] == Octet(s[i])
  {
    seq(|s|, i requires 0 <= i < |s| => Octet(s[i]))
  }

  /** A string of bytes as a big-endian number. */
  ghost function Value(s: seq<bv8>): nat {
    BigEndian(Naturals(s))
  }

  lemma ValueLast(s: seq<bv8>)
    requires s != []
    ensures Value(s) == Value(s[..|s| - 1]) * 256 + s[|s| - 1] as nat
  {
    assert Naturals(s)[..|s| - 1] == Naturals(s[..|s| - 1]);
  }

  /** Add one to the last byte, carrying to the left. */
  function Increment(s: seq<bv8>): (r: seq<bv8>)
    ensures |r| == |s|
  {
    if s == [] then []
    else
      var last := s[|s| - 1] + 1;
      if last != 0 then s[..|s| - 1] + [last] else Increment(s[..|s| - 1]) + [0]
  }

  lemma ValueBound(s: seq<bv8>)
    ensures Value(s) < ByteWeight(|s|)
  {
    BigEndianBound(Naturals(s));
  }

  lemma IncrementLast(s: seq<bv8>)
    requires s != [] && s[|s| - 1] != 0xff
    ensures Increment(s) == s[..|s| - 1] + [s[|s| - 1] + 1]
    ensures Value(Increment(s)) == Value(s) + 1
  {
    hide Value;
    Successor(s[|s| - 1]);
    assert Increment(s)[..|s| - 1] == s[..|s| - 1];
    ValueLast(s);
    ValueLast(Increment(s));
  }

  lemma IncrementCarry(s: seq<bv8>)
    requires s != [] && s[|s| - 1] == 0xff
    ensures Increment(s) == Increment(s[..|s| - 1]) + [0]
    ensures Value(Increment(s)) == 256 * Value(Increment(s[..|s| - 1]))
         && Value(s) + 1 == 256 * (Value(s[..|s| - 1]) + 1)
  {
    hide Value;
    Successor(s[|s| - 1]);
    assert Increment(s)[..|s| - 1] == Increment(s[..|s| - 1]);
    ValueLast(s);
    ValueLast(Increment(s));
  }

  ghost function Wrap(x: nat, w: nat): nat
    requires w > 0
  {
    x % w
  }

  lemma NoCarry(v: nat, w: nat)
    requires v < w
    ensures Wrap(v, w) == v
  {
    ModUnique(v, w, 0, v);
  }

  lemma Carry(init: nat, w: nat)
    requires w > 0
    ensures Wrap(256 * (init + 1), 256 * w) == 256 * Wrap(init + 1, w)
  {
    ModTimes(init + 1, w, 256);
  }

  lemma WrapsNone(s: seq<bv8>)
    requires s == []
    ensures Value(Increment(s)) == Wrap(Value(s) + 1, ByteWeight(|s|))
  {
  }

  lemma {:induction false} IncrementWraps(s: seq<bv8>)
    ensures Value(Increment(s)) == Wrap(Value(s) + 1, ByteWeight(|s|))
  {
    hide Increment, Value, Wrap;
    if s == [] {
      WrapsNone(s);
    } else {
      var init := s[..|s| - 1];
      if s[|s| - 1] != 0xff {
        IncrementLast(s);
        ValueBound(Increment(s));
        NoCarry(Value(s) + 1, ByteWeight(|s|));
      } else {
        IncrementCarry(s);
        IncrementWraps(init);
        Carry(Value(init), ByteWeight(|s| - 1));
      }
    }
  }

  /** Incrementing is adding one modulo 256^n. */
  lemma IncrementValue(s: seq<bv8>)
    ensures Value(Increment(s)) == (Value(s) + 1) % ByteWeight(|s|)
  {
    hide Increment, Value, ByteWeight;
    IncrementWraps(s);
  }

  lemma ModTimes(x: nat, w: nat, k: nat)
    requires w > 0 && k > 0
    ensures k * w > 0 && (k * x) % (k * w) == k * (x % w)
  {
    var q := x / w;
    MulMonotone(x % w, w - 1, k);
    Distribute(w, 1, k);
    assert k * x == q * (k * w) + k * (x % w) by {
      assert x == q * w + x % w;
      assert k * (q * w + x % w) == k * (q * w) + k * (x % w);
      assert k * (q * w) == q * (k * w);
    }
    ModUnique(k * x, k * w, q, k * (x % w));
  }

  /** The last bytes of `s` are all ones from `i` on. */
  ghost predicate OnesFrom(s: seq<bv8>, i: nat) {
    forall j :: i <= j < |s| ==> s[j] == 0xff
  }

  function Zeros(n: nat): (s: seq<bv8>)
    ensures |s| == n
  {
    seq(n, _ => 0)
  }

  lemma {:induction false} IncrementCarries(s: seq<bv8>, i: nat)
    requires i <= |s| && OnesFrom(s, i)
    ensures Increment(s) == Increment(s[..i]) + Zeros(|s| - i)
  {
    if i == |s| {
      assert s[..i] == s;
    } else {
      var init := s[..|s| - 1];
      Successor(s[|s| - 1]);
      IncrementCarries(init, i);
      assert init[..i] == s[..i];
      assert Zeros(|s| - i) == Zeros(|s| - 1 - i) + [0];
    }
  }

  method IncrementCounter(counter: array<bv8>)
    modifies counter
    ensures counter[..] == Increment(old(counter[..]))
  {
    hide Increment;
    ghost var start := counter[..];
    var i := counter.Length;
    while i > 0
      invariant 0 <= i <= counter.Length && OnesFrom(start, i)
      invariant counter[..] == start[..i] + Zeros(|start| - i)
    {
      i := i - 1;
      Successor(counter[i]);
      counter[i] := counter[i] + 1;
      if counter[i] != 0 {
        IncrementCarries(start, i + 1);
        IncrementStops(start[..i + 1]);
        return;
      }
    }
    IncrementCarries(start, 0);
    assert Increment(start[..0]) == [];
  }

  lemma IncrementStops(s: seq<bv8>)
    requires s != [] && s[|s| - 1] != 0xff
    ensures Increment(s) == s[..|s| - 1] + [s[|s| - 1] + 1]
  {
    Successor(s[|s| - 1]);
  }

  // ---- The key stream ----

  /** The counter block after `i` increments. */
  function CounterAt(c: Block, i: nat): Block {
    if i == 0 then c else Increment(CounterAt(c, i - 1))
  }

  lemma {:induction false} CounterValue(c: Block, i: nat)
    ensures Value(CounterAt(c, i)) == (Value(c) + i) % ByteWeight(16)
  {
    hide Value, Increment, ByteWeight;
    if i == 0 {
      ValueBound(c);
      ModUnique(Value(c), ByteWeight(16), 0, Value(c));
    } else {
      CounterValue(c, i - 1);
      IncrementValue(CounterAt(c, i - 1));
      ModPlus(Value(c) + i - 1, ByteWeight(16), 1);
    }
  }

  lemma {:induction false} CounterAdds(c: Block, i: nat, j: nat)
    ensures CounterAt(CounterAt(c, i), j) == CounterAt(c, i + j)
  {
    hide Increment;
    if j > 0 {
      CounterAdds(c, i, j - 1);
    }
  }

  function StreamByte(keys: seq<Block>, c: Block, j: nat): bv8
    requires |keys| >= 2
  {
    Cipher(CounterAt(c, j / 16), keys)[j % 16]
  }

  /** The data xor-ed with the key stream that starts at counter block `c` (section 6.5 of NIST SP 800-38A). */
  function Streamed(keys: seq<Block>, c: Block, s: seq<bv8>): (r: seq<bv8>)
    requires |keys| >= 2
    ensures |r| == |s| && forall j {:trigger r[j]} :: 0 <= j < |s| ==> r[j] == Xor(s[j], StreamByte(keys, c, j))
  {
    seq(|s|, j requires 0 <= j < |s| => Xor(s[j], StreamByte(keys, c, j)))
  }

  /** Applying the stream twice from the same counter restores the data. */
  lemma StreamedTwice(keys: seq<Block>, c: Block, s: seq<bv8>)
    requires |keys| >= 2
    ensures Streamed(keys, c, Streamed(keys, c, s)) == s
  {
    hide Xor, StreamByte;
    forall j | 0 <= j < |s|
      ensures Streamed(keys, c, Streamed(keys, c, s))[j] == s[j]
    {
      XorTwice(s[j], StreamByte(keys, c, j));
    }
  }

  /** Data may be processed in pieces, provided the first ends at a block boundary. */
  lemma StreamedInPieces(keys: seq<Block>, c: Block, s: seq<bv8>, k: nat, t: seq<bv8>)
    requires |keys| >= 2 && |s| == 16 * k
    ensures Streamed(keys, c, s + t) == Streamed(keys, c, s) + Streamed(keys, CounterAt(c, k), t)
  {
    hide Xor, StreamByte, CounterAt, Streamed;
    var whole, one, two := Streamed(keys, c, s + t), Streamed(keys, c, s), Streamed(keys, CounterAt(c, k), t);
    forall j | 0 <= j < |s + t|
      ensures whole[j] == (one + two)[j]
    {
      if j >= |s| {
        StreamMoves(keys, c, k, j - |s|);
      }
    }
  }

  lemma SameBlock(k: nat, j: nat)
    ensures (16 * k + j) / 16 == k + j / 16 && (16 * k + j) % 16 == j % 16
  {
    ModUnique(16 * k + j, 16, k + j / 16, j % 16);
  }

  lemma StreamMoves(keys: seq<Block>, c: Block, k: nat, j: nat)
    requires |keys| >= 2
    ensures StreamByte(keys, c, 16 * k + j) == StreamByte(keys, CounterAt(c, k), j)
  {
    hide Cipher, CounterAt;
    SameBlock(k, j);
    CounterAdds(c, k, j / 16);
  }

  class CtrMode {
    const keys: seq<Block>
    const counter: array<bv8>

    ghost predicate Valid() {
      |keys| >= 2 && counter.Length == 16
    }

    constructor (keys: seq<Block>, nonce: Block)
      requires |keys| >= 2
      ensures Valid() && this.keys == keys && counter[..] == nonce && fresh(counter)
    {
      this.keys := keys;
      counter := new bv8[16](i requires 0 <= i < 16 => nonce[i]);
    }

    /** Encrypt or decrypt data in place; the counter moves on by the blocks begun. */
    method Process(data: array<bv8>)
      requires Valid() && data != counter
      modifies data, counter
      ensures data[..] == Streamed(keys, old(counter[..]), old(data[..]))
      ensures counter[..] == CounterAt(old(counter[..]), (data.Length + 15) / 16)
    {
      hide Xor, Cipher, Increment, StreamByte;
      ghost var c := counter[..];
      var start := 0;
      ghost var blocks := 0;
      while start < data.Length
        invariant start == 16 * blocks && start < data.Length + 16
        invariant counter[..] == CounterAt(c, blocks)
        invariant forall j :: 0 <= j < start && j < data.Length ==> data[j] == Xor(old(data[j]), StreamByte(keys, c, j))
        invariant forall j :: start <= j < data.Length ==> data[j] == old(data[j])
      {
        var keystream := new bv8[16](i requires 0 <= i < 16 reads counter => counter[i]);
        assert keystream[..] == counter[..];
        EncryptBlock(keystream, keys);
        var n := if data.Length - start < 16 then data.Length - start else 16;
        StreamBlock(keys, c, blocks, keystream[..]);
        XorInto(data, start, keystream[..], n);
        assert counter[..] == CounterAt(c, blocks);
        IncrementCounter(counter);
        start := start + 16;
        blocks := blocks + 1;
      }
      BlocksBegun(data.Length, blocks);
    }
  }

  lemma BlocksBegun(n: nat, blocks: nat)
    requires n <= 16 * blocks < n + 16
    ensures (n + 15) / 16 == blocks
  {
  }

  lemma StreamBlock(keys: seq<Block>, c: Block, k: nat, keystream: Block)
    requires |keys| >= 2 && keystream == Cipher(CounterAt(c, k), keys)
    ensures forall j :: 16 * k <= j < 16 * k + 16 ==> keystream[j - 16 * k] == StreamByte(keys, c, j)
  {
    hide Cipher, CounterAt;
    forall j | 16 * k <= j < 16 * k + 16
      ensures keystream[j - 16 * k] == StreamByte(keys, c, j)
    {
      ModUnique(j, 16, k, j - 16 * k);
    }
  }

  method XorInto(data: array<bv8>, start: nat, keystream: Block, n: nat)
    requires start + n <= data.Length && n <= 16
    modifies data
    ensures forall j :: 0 <= j < data.Length ==>
              data[j] == if start <= j < start + n then Xor(old(data[j]), keystream[j - start]) else old(data[j])
  {
    hide Xor;
    for i := 0 to n
      invariant forall j :: 0 <= j < data.Length ==>
                  data[j] == if start <= j < start + i then Xor(old(data[j]), keystream[j - start]) else old(data[j])
    {
      data[start + i] := Xor(data[start + i], keystream[i]);
    }
  }

  // ---- GCM's 32-bit counter ----

  /** Increment the last four bytes only (section 6.2 of NIST SP 800-38D). */
  ghost function Inc32(c: Block): Block {
    c[..12] + Increment(c[12..])
  }

  ghost function Counter32At(c: Block, i: nat): Block {
    if i == 0 then c else Inc32(Counter32At(c, i - 1))
  }

  lemma OnesInit(t: seq<bv8>)
    requires t != []
    ensures OnesFrom(t, 0) <==> OnesFrom(t[..|t| - 1], 0) && t[|t| - 1] == 0xff
  {
  }

  lemma SplitLast(s: seq<bv8>, t: seq<bv8>)
    requires t != []
    ensures var init := t[..|t| - 1];
            if t[|t| - 1] != 0xff then Increment(s + t) == s + Increment(t)
            else Increment(s + t) == Increment(s + init) + [0] && Increment(t) == Increment(init) + [0]
  {
    hide Increment, Value;
    var init := t[..|t| - 1];
    assert (s + t)[..|s + t| - 1] == s + init;
    if t[|t| - 1] != 0xff {
      IncrementLast(t);
      IncrementLast(s + t);
    } else {
      IncrementCarry(t);
      IncrementCarry(s + t);
    }
  }

  lemma {:induction false} IncrementSplit(s: seq<bv8>, t: seq<bv8>)
    ensures Increment(s + t) == if OnesFrom(t, 0) then Increment(s) + Increment(t) else s + Increment(t)
  {
    if t == [] {
      assert s + t == s;
    } else {
      hide Increment, OnesFrom;
      var init := t[..|t| - 1];
      IncrementSplit(s, init);
      OnesInit(t);
      SplitLast(s, t);
      assert Increment(s) + Increment(init) + [0] == Increment(s) + (Increment(init) + [0]);
      assert s + Increment(init) + [0] == s + (Increment(init) + [0]);
    }
  }

  lemma IncrementDiffers(s: seq<bv8>)
    requires s != []
    ensures Increment(s) != s
  {
    Successor(s[|s| - 1]);
    assert Increment(s)[|s| - 1] == s[|s| - 1] + 1;
  }

  /** The 128-bit increment differs from the 32-bit one exactly when the last four bytes overflow. */
  lemma IncrementIsInc32(c: Block)
    ensures Increment(c) == Inc32(c) <==> !OnesFrom(c[12..], 0)
  {
    hide Increment;
    assert c == c[..12] + c[12..];
    IncrementSplit(c[..12], c[12..]);
    IncrementDiffers(c[..12]);
    if OnesFrom(c[12..], 0) {
      assert Increment(c)[..12] == Increment(c[..12]) && Inc32(c)[..12] == c[..12];
    }
  }

  lemma {:induction false} OnesValue(s: seq<bv8>)
    requires OnesFrom(s, 0)
    ensures Value(s) == ByteWeight(|s|) - 1
  {
    if s != [] {
      hide Value;
      Successor(s[|s| - 1]);
      OnesValue(s[..|s| - 1]);
      ValueLast(s);
    }
  }

  /** The counter block that GCM starts from. */
  function FirstCounter(iv: seq<bv8>): Block
    requires |iv| == 12
  {
    iv + [0, 0, 0, 1]
  }

  /** Up to the longest message that the standard allows, the 128-bit counter runs like the 32-bit one. */
  lemma {:induction false} CounterIsCounter32(iv: seq<bv8>, i: nat)
    requires |iv| == 12 && i + 1 < 0x1_0000_0000
    ensures CounterAt(FirstCounter(iv), i) == Counter32At(FirstCounter(iv), i)
    ensures var c := CounterAt(FirstCounter(iv), i); c[..12] == iv && Value(c[12..]) == i + 1
  {
    hide Increment, Value;
    var first := FirstCounter(iv);
    if i == 0 {
      FirstValue(first[12..]);
    } else {
      CounterIsCounter32(iv, i - 1);
      var c := CounterAt(first, i - 1);
      if OnesFrom(c[12..], 0) {
        OnesValue(c[12..]);
      }
      assert ByteWeight(4) == 0x1_0000_0000 by { FourBytes(); }
      IncrementIsInc32(c);
      IncrementValue(c[12..]);
      ModUnique(i + 1, 0x1_0000_0000, 0, i + 1);
      assert Inc32(c)[12..] == Increment(c[12..]) && Inc32(c)[..12] == c[..12];
    }
  }

  lemma FourBytes()
    ensures ByteWeight(4) == 0x1_0000_0000
  {
    assert ByteWeight(2) == 0x1_0000;
  }

  lemma FirstValue(s: seq<bv8>)
    requires s == [0, 0, 0, 1]
    ensures Value(s) == 1
  {
    assert Naturals(s) == Repeat(0, 3) + [1];
    BigEndianPadded(3, [1]);
    BigEndianSingle(1);
  }
}
