/** The AES cipher over any number of rounds, and its inverse. */
module AesCipher {
  import opened Aes

  // ---- The cipher ----

  /** The state after the initial key and `n` full rounds. */
  function Rounds(s: Block, keys: seq<Block>, n: nat): Block
    requires n < |keys|
  {
    if n == 0 then AddKey(s, keys[0])
    else AddKey(MixColumns(ShiftRows(SubBytes(Rounds(s, keys, n - 1)))), keys[n])
  }

  /** The cipher with round keys 0 to `|keys| - 1` (section 5.1 of FIPS 197). */
  function Cipher(s: Block, keys: seq<Block>): Block
    requires |keys| >= 2
  {
    AddKey(ShiftRows(SubBytes(Rounds(s, keys, |keys| - 2))), keys[|keys| - 1])
  }

  /** The inverse rounds `n` down to 1, then the initial key. */
  function InvRounds(s: Block, keys: seq<Block>, n: nat): Block
    requires n < |keys|
    decreases n
  {
    var t := InvSubBytes(InvShiftRows(s));
    if n == 0 then AddKey(t, keys[0]) else InvRounds(InvMixColumns(AddKey(t, keys[n])), keys, n - 1)
  }

  function InvCipher(s: Block, keys: seq<Block>): Block
    requires |keys| >= 2
  {
    InvRounds(AddKey(s, keys[|keys| - 1]), keys, |keys| - 2)
  }

  lemma {:induction false} RoundsBack(s: Block, keys: seq<Block>, n: nat)
    requires n < |keys|
    ensures InvRounds(ShiftRows(SubBytes(Rounds(s, keys, n))), keys, n) == s
  {
    hide AddKey, SubBytes, InvSubBytes, ShiftRows, InvShiftRows, MixColumns, InvMixColumns;
    var r := Rounds(s, keys, n);
    ShiftRowsBack(SubBytes(r));
    SubBytesBack(r);
    if n == 0 {
      AddKeyTwice(s, keys[0]);
    } else {
      var t := ShiftRows(SubBytes(Rounds(s, keys, n - 1)));
      AddKeyTwice(MixColumns(t), keys[n]);
      MixColumnsBack(t);
      RoundsBack(s, keys, n - 1);
    }
  }

  /** Decryption takes encryption back, for every block and any round keys. */
  lemma CipherBack(s: Block, keys: seq<Block>)
    requires |keys| >= 2
    ensures InvCipher(Cipher(s, keys), keys) == s
  {
    hide AddKey, SubBytes, ShiftRows, Rounds, InvRounds;
    AddKeyTwice(ShiftRows(SubBytes(Rounds(s, keys, |keys| - 2))), keys[|keys| - 1]);
    RoundsBack(s, keys, |keys| - 2);
  }

  method EncryptBlock(state: array<bv8>, keys: seq<Block>)
    requires state.Length == 16 && |keys| >= 2
    modifies state
    ensures state[..] == Cipher(old(state[..]), keys)
  {
    hide AddKey, SubBytes, ShiftRows, MixColumns;
    var rounds := |keys| - 1;
    AddRoundKey(state, keys[0]);
    for round := 1 to rounds
      invariant state[..] == Rounds(old(state[..]), keys, round - 1)
    {
      SubstituteBytes(state);
      Assign(state, ShiftRows(state[..]));
      MixInPlace(state);
      AddRoundKey(state, keys[round]);
    }
    SubstituteBytes(state);
    Assign(state, ShiftRows(state[..]));
    AddRoundKey(state, keys[rounds]);
  }

  method DecryptBlock(state: array<bv8>, keys: seq<Block>)
    requires state.Length == 16 && |keys| >= 2
    modifies state
    ensures state[..] == InvCipher(old(state[..]), keys)
  {
    hide AddKey, InvSubBytes, InvShiftRows, InvMixColumns;
    var rounds := |keys| - 1;
    AddRoundKey(state, keys[rounds]);
    for round := rounds downto 1
      invariant 1 <= round
      invariant InvRounds(state[..], keys, round - 1) == InvCipher(old(state[..]), keys)
    {
      Assign(state, InvShiftRows(state[..]));
      InvSubstituteBytes(state);
      AddRoundKey(state, keys[round]);
      UnmixInPlace(state);
    }
    Assign(state, InvShiftRows(state[..]));
    InvSubstituteBytes(state);
    AddRoundKey(state, keys[0]);
  }
}
