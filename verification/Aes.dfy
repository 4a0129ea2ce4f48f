/** AES-128 and AES-256 of `crypto/cipher.rs`: the steps of a round on a block in place, and their inverses. */
module Aes {
  import opened AesField
  import opened AesTables

  type Block = b: seq<bv8> | |b| == 16 witness seq(16, _ => 0)

  // ---- The steps of a round ----

  function AddKey(s: Block, k: Block): Block {
    seq(16, i requires 0 <= i < 16 => Xor(s[i], k[i]))
  }

  function SubBytes(s: Block): Block {
    seq(16, i requires 0 <= i < 16 => Sbox(s[i]))
  }

  function InvSubBytes(s: Block): Block {
    seq(16, i requires 0 <= i < 16 => InvSbox(s[i]))
  }

  function ShiftRows(s: Block): Block {
    [s[0], s[5], s[10], s[15], s[4], s[9], s[14], s[3], s[8], s[13], s[2], s[7], s[12], s[1], s[6], s[11]]
  }

  function InvShiftRows(s: Block): Block {
    [s[0], s[13], s[10], s[7], s[4], s[1], s[14], s[11], s[8], s[5], s[2], s[15], s[12], s[9], s[6], s[3]]
  }

  function MixColumn(a: bv8, b: bv8, c: bv8, d: bv8): (t: seq<bv8>)
    ensures |t| == 4
  {
    [Mix(a, b, c, d), Mix(b, c, d, a), Mix(c, d, a, b), Mix(d, a, b, c)]
  }

  function UnmixColumn(a: bv8, b: bv8, c: bv8, d: bv8): (t: seq<bv8>)
    ensures |t| == 4
  {
    [Unmix(a, b, c, d), Unmix(b, c, d, a), Unmix(c, d, a, b), Unmix(d, a, b, c)]
  }

  function MixColumns(s: Block): Block {
    MixColumn(s[0], s[1], s[2], s[3]) + MixColumn(s[4], s[5], s[6], s[7])
    + MixColumn(s[8], s[9], s[10], s[11]) + MixColumn(s[12], s[13], s[14], s[15])
  }

  function InvMixColumns(s: Block): Block {
    UnmixColumn(s[0], s[1], s[2], s[3]) + UnmixColumn(s[4], s[5], s[6], s[7])
    + UnmixColumn(s[8], s[9], s[10], s[11]) + UnmixColumn(s[12], s[13], s[14], s[15])
  }

  // ---- Each step has its inverse ----

  lemma XorTwice(a: bv8, k: bv8)
    ensures Xor(Xor(a, k), k) == a
  {
    assert Xor(a ^ k, k) == a;
  }

  lemma AddKeyTwice(s: Block, k: Block)
    ensures AddKey(AddKey(s, k), k) == s
  {
    hide Xor;
    forall i | 0 <= i < 16
      ensures AddKey(AddKey(s, k), k)[i] == s[i]
    {
      XorTwice(s[i], k[i]);
    }
  }

  lemma SubBytesBack(s: Block)
    ensures InvSubBytes(SubBytes(s)) == s
  {
    hide Sbox, InvSbox;
    forall i | 0 <= i < 16
      ensures InvSubBytes(SubBytes(s))[i] == s[i]
    {
      SboxInverse(s[i]);
    }
  }

  lemma ShiftRowsBack(s: Block)
    ensures InvShiftRows(ShiftRows(s)) == s
  {
  }

  /** Row `r` of the state moves `r` columns to the left (section 5.1.2 of FIPS 197). */
  lemma ShiftRowsFormula(s: Block, r: nat, c: nat)
    requires r < 4 && c < 4
    ensures r + 4 * c < 16 && r + 4 * ((c + r) % 4) < 16
    ensures ShiftRows(s)[r + 4 * c] == s[r + 4 * ((c + r) % 4)]
  {
  }

  lemma ColumnBack(a: bv8, b: bv8, c: bv8, d: bv8)
    ensures var t := MixColumn(a, b, c, d); UnmixColumn(t[0], t[1], t[2], t[3]) == [a, b, c, d]
  {
    hide Mix, Unmix;
    Unmixes(a, b, c, d);
    Unmixes(b, c, d, a);
    Unmixes(c, d, a, b);
    Unmixes(d, a, b, c);
  }

  lemma MixColumnsBack(s: Block)
    ensures InvMixColumns(MixColumns(s)) == s
  {
    hide MixColumn, UnmixColumn;
    ColumnBack(s[0], s[1], s[2], s[3]);
    ColumnBack(s[4], s[5], s[6], s[7]);
    ColumnBack(s[8], s[9], s[10], s[11]);
    ColumnBack(s[12], s[13], s[14], s[15]);
  }

  // ---- The steps on a block in place ----

  method AddRoundKey(state: array<bv8>, key: Block)
    requires state.Length == 16
    modifies state
    ensures state[..] == AddKey(old(state[..]), key)
  {
    hide Xor;
    for i := 0 to 16
      invariant forall j :: 0 <= j < i ==> state[j] == Xor(old(state[j]), key[j])
      invariant forall j :: i <= j < 16 ==> state[j] == old(state[j])
    {
      state[i] := Xor(state[i], key[i]);
    }
  }

  method SubstituteBytes(state: array<bv8>)
    requires state.Length == 16
    modifies state
    ensures state[..] == SubBytes(old(state[..]))
  {
    hide Sbox;
    for i := 0 to 16
      invariant forall j :: 0 <= j < i ==> state[j] == Sbox(old(state[j]))
      invariant forall j :: i <= j < 16 ==> state[j] == old(state[j])
    {
      state[i] := Sbox(state[i]);
    }
  }

  method InvSubstituteBytes(state: array<bv8>)
    requires state.Length == 16
    modifies state
    ensures state[..] == InvSubBytes(old(state[..]))
  {
    hide InvSbox;
    for i := 0 to 16
      invariant forall j :: 0 <= j < i ==> state[j] == InvSbox(old(state[j]))
      invariant forall j :: i <= j < 16 ==> state[j] == old(state[j])
    {
      state[i] := InvSbox(state[i]);
    }
  }

  method Assign(state: array<bv8>, s: Block)
    requires state.Length == 16
    modifies state
    ensures state[..] == s
  {
    forall i | 0 <= i < 16 {
      state[i] := s[i];
    }
  }

  method MixByte(a: bv8, b: bv8, c: bv8, d: bv8) returns (r: bv8)
    ensures r == Mix(a, b, c, d)
  {
    hide Times, Xor4;
    var two := Gmul(a, 2);
    var three := Gmul(b, 3);
    r := Xor4(two, three, c, d);
  }

  method UnmixByte(a: bv8, b: bv8, c: bv8, d: bv8) returns (r: bv8)
    ensures r == Unmix(a, b, c, d)
  {
    hide Times, Xor4;
    var fourteen := Gmul(a, 14);
    var eleven := Gmul(b, 11);
    var thirteen := Gmul(c, 13);
    var nine := Gmul(d, 9);
    r := Xor4(fourteen, eleven, thirteen, nine);
  }

  method MixAt(state: array<bv8>, i: nat)
    requires i + 4 <= state.Length
    modifies state
    ensures state[i..i + 4] == MixColumn(old(state[i]), old(state[i + 1]), old(state[i + 2]), old(state[i + 3]))
    ensures forall j :: 0 <= j < state.Length && !(i <= j < i + 4) ==> state[j] == old(state[j])
  {
    hide Mix;
    var s0, s1, s2, s3 := state[i], state[i + 1], state[i + 2], state[i + 3];
    state[i] := MixByte(s0, s1, s2, s3);
    state[i + 1] := MixByte(s1, s2, s3, s0);
    state[i + 2] := MixByte(s2, s3, s0, s1);
    state[i + 3] := MixByte(s3, s0, s1, s2);
  }

  method MixInPlace(state: array<bv8>)
    requires state.Length == 16
    modifies state
    ensures state[..] == MixColumns(old(state[..]))
  {
    hide MixColumn;
    for i := 0 to 4
      invariant forall k :: 0 <= k < i ==> state[4 * k..4 * k + 4] == Mixed(old(state[..]), k)
      invariant forall j :: 4 * i <= j < 16 ==> state[j] == old(state[j])
    {
      ghost var before := state[..];
      MixAt(state, 4 * i);
      Replaced(before, state[..], 4 * i);
    }
    Columns(state[..], Mixed(old(state[..]), 0), Mixed(old(state[..]), 1), Mixed(old(state[..]), 2),
            Mixed(old(state[..]), 3));
  }

  method UnmixAt(state: array<bv8>, i: nat)
    requires i + 4 <= state.Length
    modifies state
    ensures state[i..i + 4] == UnmixColumn(old(state[i]), old(state[i + 1]), old(state[i + 2]), old(state[i + 3]))
    ensures forall j :: 0 <= j < state.Length && !(i <= j < i + 4) ==> state[j] == old(state[j])
  {
    hide Unmix;
    var s0, s1, s2, s3 := state[i], state[i + 1], state[i + 2], state[i + 3];
    state[i] := UnmixByte(s0, s1, s2, s3);
    state[i + 1] := UnmixByte(s1, s2, s3, s0);
    state[i + 2] := UnmixByte(s2, s3, s0, s1);
    state[i + 3] := UnmixByte(s3, s0, s1, s2);
  }

  method UnmixInPlace(state: array<bv8>)
    requires state.Length == 16
    modifies state
    ensures state[..] == InvMixColumns(old(state[..]))
  {
    hide UnmixColumn;
    for i := 0 to 4
      invariant forall k :: 0 <= k < i ==> state[4 * k..4 * k + 4] == Unmixed(old(state[..]), k)
      invariant forall j :: 4 * i <= j < 16 ==> state[j] == old(state[j])
    {
      ghost var before := state[..];
      UnmixAt(state, 4 * i);
      Replaced(before, state[..], 4 * i);
    }
    Columns(state[..], Unmixed(old(state[..]), 0), Unmixed(old(state[..]), 1), Unmixed(old(state[..]), 2),
            Unmixed(old(state[..]), 3));
  }

  /** Columns before a replaced one stay. */
  lemma Replaced(s: Block, t: Block, i: nat)
    requires i <= 16 && forall j :: 0 <= j < i ==> t[j] == s[j]
    ensures forall k {:trigger t[4 * k..4 * k + 4]} :: 0 <= k && 4 * k + 4 <= i ==>
              t[4 * k..4 * k + 4] == s[4 * k..4 * k + 4]
  {
  }

  ghost function Mixed(s: Block, k: nat): seq<bv8>
    requires k < 4
  {
    MixColumn(s[4 * k], s[4 * k + 1], s[4 * k + 2], s[4 * k + 3])
  }

  ghost function Unmixed(s: Block, k: nat): seq<bv8>
    requires k < 4
  {
    UnmixColumn(s[4 * k], s[4 * k + 1], s[4 * k + 2], s[4 * k + 3])
  }

  lemma Columns(s: Block, a: seq<bv8>, b: seq<bv8>, c: seq<bv8>, d: seq<bv8>)
    requires s[0..4] == a && s[4..8] == b && s[8..12] == c && s[12..16] == d
    ensures s == a + b + c + d
  {
  }
}
