/** The key schedules of AES-128 and AES-256, block by block, against the word recurrence of FIPS 197. */
module AesKeys {
  import opened AesField
  import opened AesTables
  import opened Aes

  type Word = w: seq<bv8> | |w| == 4 witness [0, 0, 0, 0]

  function XorWord(v: Word, w: Word): Word {
    [Xor(v[0], w[0]), Xor(v[1], w[1]), Xor(v[2], w[2]), Xor(v[3], w[3])]
  }

  function SubWord(w: Word): Word {
    [Sbox(w[0]), Sbox(w[1]), Sbox(w[2]), Sbox(w[3])]
  }

  function RotWord(w: Word): Word {
    [w[1], w[2], w[3], w[0]]
  }

  /** x^(i - 1) in the field. */
  function RoundConstant(i: nat): bv8
    requires i > 0
  {
    if i == 1 then 1 else Two(RoundConstant(i - 1))
  }

  /** Only the first byte of a word takes the round constant. */
  function AddConstant(w: Word, c: bv8): Word {
    [Xor(w[0], c), w[1], w[2], w[3]]
  }

  /** Word `i` of the expanded key (section 5.2 of FIPS 197). */
  function ScheduleWord(key: seq<bv8>, i: nat): Word
    requires |key| == 16 || |key| == 32
  {
    if 4 * i < |key| then key[4 * i..4 * i + 4]
    else
      var temp := ScheduleWord(key, i - 1);
      if |key| == 16 then
        XorWord(
          ScheduleWord(key, i - 4),
          if i % 4 == 0 then AddConstant(SubWord(RotWord(temp)), RoundConstant(i / 4)) else temp)
      else
        XorWord(
          ScheduleWord(key, i - 8),
          if i % 8 == 0 then AddConstant(SubWord(RotWord(temp)), RoundConstant(i / 8))
          else if i % 8 == 4 then SubWord(temp) else temp)
  }

  const RCON: seq<bv8> := [0x01, 0x02, 0x04, 0x08, 0x10, 0x20, 0x40, 0x80, 0x1b, 0x36]

  lemma {:induction false} Constants(i: nat)
    requires 1 <= i <= 10
    ensures RCON[i - 1] == RoundConstant(i)
  {
    if i > 1 {
      Constants(i - 1);
    }
  }

  function WordAt(b: Block, c: nat): Word
    requires c < 4
  {
    b[4 * c..4 * c + 4]
  }

  /** Round key `r` holds words 4r to 4r + 3 of the schedule. */
  ghost predicate Scheduled(key: seq<bv8>, r: nat, b: Block)
    requires |key| == 16 || |key| == 32
  {
    forall c :: 0 <= c < 4 ==> WordAt(b, c) == ScheduleWord(key, 4 * r + c)
  }

  /** Each byte of a round key is that of the base round key plus the byte four before it, or the round's word. */
  ghost predicate Extends(base: Block, temp: Word, b: Block) {
    && (forall j :: 0 <= j < 4 ==> b[j] == Xor(base[j], temp[j]))
    && (forall j :: 4 <= j < 16 ==> b[j] == Xor(base[j], b[j - 4]))
  }

  /** Chain a base round key with the word that starts the round. */
  method NextKey(base: Block, temp: Word) returns (b: Block)
    ensures Extends(base, temp, b)
    ensures WordAt(b, 0) == XorWord(WordAt(base, 0), temp)
    ensures forall c :: 1 <= c < 4 ==> WordAt(b, c) == XorWord(WordAt(base, c), WordAt(b, c - 1))
  {
    hide Xor, WordAt, XorWord;
    var next := new bv8[16](_ => 0);
    for j := 0 to 4
      invariant forall i :: 0 <= i < j ==> next[i] == Xor(base[i], temp[i])
    {
      next[j] := Xor(base[j], temp[j]);
    }
    for j := 4 to 16
      invariant forall i :: 0 <= i < 4 ==> next[i] == Xor(base[i], temp[i])
      invariant forall i :: 4 <= i < j ==> next[i] == Xor(base[i], next[i - 4])
    {
      next[j] := Xor(base[j], next[j - 4]);
    }
    b := next[..];
    ChainedWords(base, temp, b);
  }

  lemma ChainedWords(base: Block, temp: Word, b: Block)
    requires forall i :: 0 <= i < 4 ==> b[i] == Xor(base[i], temp[i])
    requires forall i :: 4 <= i < 16 ==> b[i] == Xor(base[i], b[i - 4])
    ensures WordAt(b, 0) == XorWord(WordAt(base, 0), temp)
    ensures forall c :: 1 <= c < 4 ==> WordAt(b, c) == XorWord(WordAt(base, c), WordAt(b, c - 1))
  {
    hide Xor, XorWord, WordAt;
    ChainedWord(base, temp, b, 0);
    forall c | 1 <= c < 4
      ensures WordAt(b, c) == XorWord(WordAt(base, c), WordAt(b, c - 1))
    {
      WordBytes(b, c - 1);
      ChainedWord(base, WordAt(b, c - 1), b, c);
    }
  }

  lemma WordBytes(b: Block, c: nat)
    requires c < 4
    ensures forall k :: 0 <= k < 4 ==> WordAt(b, c)[k] == b[4 * c + k]
  {
  }

  lemma ChainedWord(base: Block, prev: Word, b: Block, c: nat)
    requires c < 4 && forall k :: 0 <= k < 4 ==> b[4 * c + k] == Xor(base[4 * c + k], prev[k])
    ensures WordAt(b, c) == XorWord(WordAt(base, c), prev)
  {
    hide Xor;
    WordBytes(b, c);
    WordBytes(base, c);
  }

  lemma NextScheduled(key: seq<bv8>, r: nat, back: nat, base: Block, temp: Word, b: Block)
    requires (|key| == 16 && back == 1) || (|key| == 32 && back == 2)
    requires r >= back && Scheduled(key, r - back, base)
    requires ScheduleWord(key, 4 * r) == XorWord(ScheduleWord(key, 4 * (r - back)), temp)
    requires WordAt(b, 0) == XorWord(WordAt(base, 0), temp)
    requires forall c :: 1 <= c < 4 ==> WordAt(b, c) == XorWord(WordAt(base, c), WordAt(b, c - 1))
    ensures Scheduled(key, r, b)
  {
    hide XorWord, WordAt, ScheduleWord;
    assert WordAt(base, 0) == ScheduleWord(key, 4 * (r - back) + 0);
    NextWord(key, r, back, base, b, 1);
    NextWord(key, r, back, base, b, 2);
    NextWord(key, r, back, base, b, 3);
  }

  lemma NextWord(key: seq<bv8>, r: nat, back: nat, base: Block, b: Block, c: nat)
    requires (|key| == 16 && back == 1) || (|key| == 32 && back == 2)
    requires 1 <= c < 4 && r >= back && Scheduled(key, r - back, base)
    requires WordAt(b, c - 1) == ScheduleWord(key, 4 * r + c - 1)
    requires WordAt(b, c) == XorWord(WordAt(base, c), WordAt(b, c - 1))
    ensures WordAt(b, c) == ScheduleWord(key, 4 * r + c)
  {
    hide XorWord, WordAt, ScheduleWord;
    assert WordAt(base, c) == ScheduleWord(key, 4 * (r - back) + c);
    Chained(key, r, back, c);
  }

  lemma Chained(key: seq<bv8>, r: nat, back: nat, c: nat)
    requires (|key| == 16 && back == 1) || (|key| == 32 && back == 2)
    requires 1 <= c < 4 && r >= back
    ensures ScheduleWord(key, 4 * r + c) == XorWord(ScheduleWord(key, 4 * (r - back) + c),
                                                    ScheduleWord(key, 4 * r + c - 1))
  {
    hide XorWord, SubWord, RotWord, AddConstant, RoundConstant;
    InnerWord(4 * r, c);
  }

  lemma InnerWord(first: nat, c: nat)
    requires first % 4 == 0 && 1 <= c < 4
    ensures (first + c) % 4 != 0 && (first + c) % 8 != 0 && (first + c) % 8 != 4
  {
  }

  lemma FirstWord(r: nat)
    ensures 4 * r % 4 == 0 && 4 * r / 4 == r
    ensures r % 2 == 0 ==> 4 * r % 8 == 0 && 4 * r / 8 == r / 2
    ensures r % 2 == 1 ==> 4 * r % 8 == 4
  {
  }

  lemma Unfold128(key: seq<bv8>, i: nat)
    requires |key| == 16 && i >= 4
    ensures ScheduleWord(key, i) ==
              XorWord(
                ScheduleWord(key, i - 4),
                if i % 4 == 0 then AddConstant(SubWord(RotWord(ScheduleWord(key, i - 1))), RoundConstant(i / 4))
                else ScheduleWord(key, i - 1))
  {
    hide XorWord, SubWord, RotWord, AddConstant, RoundConstant;
  }

  lemma Started128(key: seq<bv8>, r: nat, last: Word)
    requires |key| == 16 && r >= 1 && last == ScheduleWord(key, 4 * (r - 1) + 3)
    ensures ScheduleWord(key, 4 * r) ==
              XorWord(ScheduleWord(key, 4 * (r - 1)), AddConstant(SubWord(RotWord(last)), RoundConstant(r)))
  {
    hide ScheduleWord, XorWord, SubWord, RotWord, AddConstant, RoundConstant;
    FirstWord(r);
    Unfold128(key, 4 * r);
  }

  lemma Started256(key: seq<bv8>, r: nat, last: Word)
    requires |key| == 32 && r >= 2 && last == ScheduleWord(key, 4 * (r - 1) + 3)
    ensures r % 2 == 0 ==>
              ScheduleWord(key, 4 * r) ==
                XorWord(ScheduleWord(key, 4 * (r - 2)), AddConstant(SubWord(RotWord(last)), RoundConstant(r / 2)))
    ensures r % 2 == 1 ==> ScheduleWord(key, 4 * r) == XorWord(ScheduleWord(key, 4 * (r - 2)), SubWord(last))
  {
    hide XorWord, SubWord, RotWord, AddConstant, RoundConstant;
    FirstWord(r);
  }

  lemma KeyWords(key: seq<bv8>)
    requires |key| == 16 || |key| == 32
    ensures Scheduled(key, 0, key[..16]) && (|key| == 32 ==> Scheduled(key, 1, key[16..]))
  {
    assert forall c :: 0 <= c < 4 ==> WordAt(key[..16], c) == key[4 * c..4 * c + 4];
    if |key| == 32 {
      forall c | 0 <= c < 4
        ensures WordAt(key[16..], c) == ScheduleWord(key, 4 * 1 + c)
      {
        assert key[16..][4 * c..4 * c + 4] == key[4 * (4 + c)..4 * (4 + c) + 4];
      }
    }
  }

  // ---- The schedules, byte by byte ----

  /**
   * Round key `r` of AES-128 from the one before: the last four bytes, rotated by one and substituted, and the round
   * constant enter the first four bytes, and each later byte adds the one four before it.
   */
  ghost predicate Round128(prev: Block, next: Block, r: nat)
    requires r > 0
  {
    && next[0] == Xor(prev[0], Xor(Sbox(prev[13]), RoundConstant(r)))
    && next[1] == Xor(prev[1], Sbox(prev[14]))
    && next[2] == Xor(prev[2], Sbox(prev[15]))
    && next[3] == Xor(prev[3], Sbox(prev[12]))
    && forall j :: 4 <= j < 16 ==> next[j] == Xor(prev[j], next[j - 4])
  }

  /** In AES-256 a round key grows from the one two before; only every second round rotates and adds a constant. */
  ghost predicate Round256(base: Block, prev: Block, next: Block, r: nat)
    requires r > 1
  {
    && (if r % 2 == 0 then
        && next[0] == Xor(base[0], Xor(Sbox(prev[13]), RoundConstant(r / 2)))
        && next[1] == Xor(base[1], Sbox(prev[14]))
        && next[2] == Xor(base[2], Sbox(prev[15]))
        && next[3] == Xor(base[3], Sbox(prev[12]))
      else
        forall j :: 0 <= j < 4 ==> next[j] == Xor(base[j], Sbox(prev[12 + j])))
    && forall j :: 4 <= j < 16 ==> next[j] == Xor(base[j], next[j - 4])
  }

  lemma RotatedStart(base: Block, prev: Block, c: bv8, next: Block)
    requires Extends(base, AddConstant(SubWord(RotWord(WordAt(prev, 3))), c), next)
    ensures next[0] == Xor(base[0], Xor(Sbox(prev[13]), c)) && next[1] == Xor(base[1], Sbox(prev[14]))
    ensures next[2] == Xor(base[2], Sbox(prev[15])) && next[3] == Xor(base[3], Sbox(prev[12]))
  {
    hide Xor, Sbox;
  }

  lemma PlainStart(base: Block, prev: Block, next: Block)
    requires Extends(base, SubWord(WordAt(prev, 3)), next)
    ensures forall j :: 0 <= j < 4 ==> next[j] == Xor(base[j], Sbox(prev[12 + j]))
  {
    hide Xor, Sbox;
  }

  lemma Rounds128(prev: Block, next: Block, r: nat)
    requires r > 0 && Extends(prev, AddConstant(SubWord(RotWord(WordAt(prev, 3))), RoundConstant(r)), next)
    ensures Round128(prev, next, r)
  {
    hide Xor, Sbox, RoundConstant, SubWord, RotWord, AddConstant, WordAt;
    RotatedStart(prev, prev, RoundConstant(r), next);
  }

  lemma Rounds256(base: Block, prev: Block, next: Block, r: nat)
    requires r > 1
    requires r % 2 == 0 ==>
               Extends(base, AddConstant(SubWord(RotWord(WordAt(prev, 3))), RoundConstant(r / 2)), next)
    requires r % 2 == 1 ==> Extends(base, SubWord(WordAt(prev, 3)), next)
    ensures Round256(base, prev, next, r)
  {
    hide Xor, Sbox, RoundConstant, SubWord, RotWord, AddConstant, WordAt;
    if r % 2 == 0 {
      RotatedStart(base, prev, RoundConstant(r / 2), next);
    } else {
      PlainStart(base, prev, next);
    }
  }

  method ExpandKey128(key: Block) returns (keys: seq<Block>)
    ensures |keys| == 11 && keys[0] == key
    ensures forall r :: 0 <= r < 11 ==> Scheduled(key, r, keys[r])
    ensures forall r :: 1 <= r < 11 ==> Round128(keys[r - 1], keys[r], r)
  {
    hide XorWord, SubWord, RotWord, AddConstant, ScheduleWord, RoundConstant, Extends, Round128;
    KeyWords(key);
    assert key[..16] == key;
    keys := [key];
    for i := 1 to 11
      invariant |keys| == i && keys[0] == key && forall r :: 0 <= r < i ==> Scheduled(key, r, keys[r])
      invariant forall r :: 1 <= r < i ==> Round128(keys[r - 1], keys[r], r)
    {
      var prev := keys[i - 1];
      var temp := AddConstant(SubWord(RotWord(WordAt(prev, 3))), RCON[i - 1]);
      Constants(i);
      Started128(key, i, WordAt(prev, 3));
      var next := NextKey(prev, temp);
      NextScheduled(key, i, 1, prev, temp, next);
      Rounds128(prev, next, i);
      keys := keys + [next];
    }
  }

  method ExpandKey256(key: seq<bv8>) returns (keys: seq<Block>)
    requires |key| == 32
    ensures |keys| == 15 && keys[0] == key[..16] && keys[1] == key[16..]
    ensures forall r :: 0 <= r < 15 ==> Scheduled(key, r, keys[r])
    ensures forall r :: 2 <= r < 15 ==> Round256(keys[r - 2], keys[r - 1], keys[r], r)
  {
    hide XorWord, SubWord, RotWord, AddConstant, ScheduleWord, RoundConstant, Extends, Round256;
    KeyWords(key);
    keys := [key[..16], key[16..]];
    for i := 2 to 15
      invariant |keys| == i && keys[0] == key[..16] && keys[1] == key[16..]
      invariant forall r :: 0 <= r < i ==> Scheduled(key, r, keys[r])
      invariant forall r :: 2 <= r < i ==> Round256(keys[r - 2], keys[r - 1], keys[r], r)
    {
      var prev, prev2 := keys[i - 1], keys[i - 2];
      Started256(key, i, WordAt(prev, 3));
      var temp;
      if i % 2 == 0 {
        Constants(i / 2);
        temp := AddConstant(SubWord(RotWord(WordAt(prev, 3))), RCON[i / 2 - 1]);
      } else {
        temp := SubWord(WordAt(prev, 3));
      }
      var next := NextKey(prev2, temp);
      NextScheduled(key, i, 2, prev2, temp, next);
      Rounds256(prev2, prev, next, i);
      keys := keys + [next];
    }
  }
}
