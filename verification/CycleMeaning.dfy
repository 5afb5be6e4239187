/**
 * The hashing cycle byte by byte: which keystream block meets which byte of the state, what is
 * authenticated, what is cleared and what every step leaves alone.
 */
module CycleMeaning {
  import opened CycleState
  import opened CryptoCycle
  import opened CycleMining

  lemma XorZero(x: byte)
    ensures 0 ^ x == x
  {
  }

  // ---------- the header word ----------

  /** The fields tile the header word, except for four bits that are passed through. */
  lemma HeaderBits(d: bv32)
    ensures d == ((GetVersion(d) as bv32) << 25) | ((if IsFailed(d) then 1 else 0) << 24)
                 | ((GetLength(d) as bv32) << 17) | ((if IsTruncated(d) then 1 else 0) << 16)
                 | ((GetAddLen(d) as bv32) << 13) | ((if IsDecrypt(d) then 1 else 0) << 12)
                 | ((GetTrailingZeros(d) as bv32) << 8) | (d & 0xf0) | (GetAdditionalZeros(d) as bv32)
  {
  }

  /** makeFuzzable leaves all fields but three, and those as a step needs them. */
  lemma FuzzableFields(d: bv32)
    ensures Decode(FuzzableWord(d)) == Decode(d).(version := 0, failed := false, length := Decode(d).length | 32)
  {
    hide GetVersion, IsFailed, GetAddLen, IsDecrypt, GetTrailingZeros, GetAdditionalZeros, IsTruncated, GetLength,
         SetVersion, SetFailed, SetLength;
    SetsVersion(d, 0);
    SetsFailed(SetVersion(d, 0), false);
    SetsLength(SetFailed(SetVersion(d, 0), false), GetLength(d) | 32);
  }

  /** The length is the smaller of what was asked for and what fits, and the flag says if it was cut. */
  lemma TruncatedFields(d: bv32)
    ensures var room: bv7 := 125 - (Decode(d).addLen as bv7);
            Decode(TruncatedWord(d))
            == Decode(d).(length := if Decode(d).length > room then room else Decode(d).length,
                          truncated := Decode(d).length > room)
  {
    var len := GetLength(d);
    var maxLen: bv7 := 125 - (GetAddLen(d) as bv7);
    var final := if len > maxLen then maxLen else len;
    SetsTruncated(d, final != len);
    SetsLength(SetTruncated(d, final != len), final);
    hide GetVersion, IsFailed, GetAddLen, IsDecrypt, GetTrailingZeros, GetAdditionalZeros, IsTruncated, GetLength,
         SetTruncated, SetLength;
  }

  /** Additional data and message are measured in blocks of 16 bytes, so a fuzzable message has 512 at least. */
  lemma BlocksOfSixteen(d: bv32)
    ensures AddBytes(d) == 16 * (Decode(d).addLen as nat) && MsgBytes(d) == 16 * (Decode(d).length as nat)
    ensures MsgBytes(FuzzableWord(d)) >= 512
  {
    FuzzableFields(d);
    assert Decode(FuzzableWord(d)).length == Decode(d).length | 32;
    hide FuzzableWord, GetAddLen, GetLength;
    AtLeast32(Decode(d).length);
    assert GetLength(FuzzableWord(d)) == Decode(FuzzableWord(d)).length;
  }

  lemma AtLeast32(len: bv7)
    ensures (len | 32) as nat >= 32
  {
    assert len | 32 >= 32;
  }

  // ---------- numbers in the state ----------

  /** Byte `i` of a number is its bits from `8 * i` on. */
  lemma WordBytes(s: seq<byte>)
    requires |s| == 8
    ensures var w := Word64(s);
            && (w & 0xff) as byte == s[0] && ((w >> 8) & 0xff) as byte == s[1]
            && ((w >> 16) & 0xff) as byte == s[2] && ((w >> 24) & 0xff) as byte == s[3]
            && ((w >> 32) & 0xff) as byte == s[4] && ((w >> 40) & 0xff) as byte == s[5]
            && ((w >> 48) & 0xff) as byte == s[6] && ((w >> 56) & 0xff) as byte == s[7]
  {
  }

  /** The item number is the eight bytes that follow the header word. */
  lemma ItemNoBytes(s: Full) returns (w: bv64)
    ensures ItemNo(s) == w as nat
    ensures (w & 0xff) as byte == s[16] && ((w >> 8) & 0xff) as byte == s[17]
            && ((w >> 16) & 0xff) as byte == s[18] && ((w >> 24) & 0xff) as byte == s[19]
            && ((w >> 32) & 0xff) as byte == s[20] && ((w >> 40) & 0xff) as byte == s[21]
            && ((w >> 48) & 0xff) as byte == s[22] && ((w >> 56) & 0xff) as byte == s[23]
  {
    w := Word64(s[16..24]);
    WordBytes(s[16..24]);
    hide Word64;
  }

  /** Reading back what was written. */
  lemma WordWritten(w: bv64)
    ensures Word64(Bytes64(w)) == w
  {
  }

  // ---------- the starting state ----------

  /**
   * A state is expanded from a seed: block `i / 64` of the keystream under the seed, numbered from 0,
   * but for the nonce in front and the header word.
   */
  lemma StartBytes(l: Library, seed: seq<byte>, nonce: bv64, i: nat)
    requires i < STATE_SZ && !(12 <= i < 16)
    ensures var expand: seq<byte> := [0, 0, 0, 0, 0x50, 0x43, 0x5f, 0x45, 0x58, 0x50, 0x4e, 0x44];
            Init0(l, seed, nonce)[i] == if i < 8 then Bytes64(nonce)[i] else l.chacha(seed, expand, i / 64)[i % 64]
  {
    var s := XorStream(l, Zeros(STATE_SZ), 0, STATE_SZ, seed, EXPAND_NONCE, 0);
    assert s[i] == 0 ^ KeyByte(l, seed, EXPAND_NONCE, 0, i);
    XorZero(KeyByte(l, seed, EXPAND_NONCE, 0, i));
    hide FuzzableWord, Word32, Bytes32, Bytes64;
  }

  /** The header word of the start is made from four bytes of block 0. */
  lemma StartHeader(l: Library, seed: seq<byte>, nonce: bv64)
    ensures var s := Init0(l, seed, nonce);
            Data(s) == FuzzableWord(Word32(s[16..20]))
  {
    var t := Overwrite(XorStream(l, Zeros(STATE_SZ), 0, STATE_SZ, seed, EXPAND_NONCE, 0), 0, Bytes64(nonce));
    hide XorStream, Word32, Bytes64, Bytes32, FuzzableWord;
    FuzzableBytes(t);
  }

  /** makeFuzzable writes four bytes, from a word that it leaves alone. */
  lemma FuzzableBytes(s: Full)
    ensures var m := MakeFuzzable(s);
            && Data(m) == FuzzableWord(Word32(s[16..20])) && m[16..20] == s[16..20]
            && forall i :: 0 <= i < STATE_SZ && !(12 <= i < 16) ==> m[i] == s[i]
  {
    hide FuzzableWord, Word32, Bytes32;
    DataSet(s, FuzzableWord(Word32(s[16..20])));
    assert MakeFuzzable(s)[16..20] == s[16..20];
  }

  // ---------- encryption ----------

  /** The padding at the end of a message, in bytes. */
  function Pad(d: bv32): nat { GetTrailingZeros(d) as nat }

  /** Byte `j` of the keystream of a message, which begins with block 1. */
  function MessageKey(l: Library, key: seq<byte>, nonce: seq<byte>, j: nat): byte {
    l.chacha(key, nonce, 1 + j / 64)[j % 64]
  }

  /** Byte `i`, with the keystream added if it is in the message: `len` bytes from `at` on. */
  function Ciphered(l: Library, x: byte, key: seq<byte>, nonce: seq<byte>, at: nat, len: nat, i: nat): byte {
    if at <= i < at + len then x ^ MessageKey(l, key, nonce, i - at) else x
  }

  lemma StreamFromOne(l: Library, s: Full, at: nat, len: nat, key: seq<byte>, nonce: seq<byte>, i: nat)
    requires at + len <= STATE_SZ && i < STATE_SZ
    ensures XorStream(l, s, at, len, key, nonce, 1)[i] == Ciphered(l, s[i], key, nonce, at, len, i)
  {
    StreamAt(l, s, at, len, key, nonce, i);
    if at <= i < at + len { MessageKeyIs(l, key, nonce, i - at); }
    hide XorStream, MessageKey, KeyByte;
  }

  lemma StreamAt(l: Library, s: Full, at: nat, len: nat, key: seq<byte>, nonce: seq<byte>, i: nat)
    requires at + len <= STATE_SZ && i < STATE_SZ
    ensures XorStream(l, s, at, len, key, nonce, 1)[i]
            == if at <= i < at + len then s[i] ^ KeyByte(l, key, nonce, 1, i - at) else s[i]
  {
    hide KeyByte;
  }

  lemma MessageKeyIs(l: Library, key: seq<byte>, nonce: seq<byte>, j: nat)
    ensures KeyByte(l, key, nonce, 1, j) == MessageKey(l, key, nonce, j)
  {
  }

  /**
   * What becomes of byte `i` behind the tag, once the header word is settled: the message lies
   * behind header and additional data, and meets the keystream from block 1 on.  Block 0 meets
   * nothing.  An encryption then clears the padding at the end of its message.
   */
  lemma MessageBytes(l: Library, s: Full, d: bv32, key: seq<byte>, nonce: seq<byte>, i: nat)
    requires HDR_SZ + AddBytes(d) + MsgBytes(d) <= STATE_SZ && 32 <= i < STATE_SZ
    ensures var at, len := 48 + AddBytes(d), MsgBytes(d);
            Process(l, s, d, key, nonce, true)[i]
            == if !IsDecrypt(d) && at + len - Pad(d) <= i < at + len then 0
               else Ciphered(l, s[i], key, nonce, at, len, i)
  {
    assert HDR_SZ == 48 && STATE_SZ == 2048;
    hide *;
    var at, len, zeros := 48 + AddBytes(d), MsgBytes(d), Pad(d);
    PartsFit(d);
    if IsDecrypt(d) {
      var tag := DecryptsAndTags(l, s, d, key, nonce, at, len);
      DecryptedAt(l, s, at, len, key, nonce, i);
      OtherBytes(Decrypted(l, s, at, len, key, nonce, true), tag, i);
    } else {
      var tag := EncryptsAndTags(l, s, d, key, nonce, at, len);
      EncryptedAt(l, s, at, len, key, nonce, zeros, i);
      OtherBytes(Encrypted(l, s, at, len, key, nonce, zeros), tag, i);
    }
  }

  lemma DecryptedAt(l: Library, s: Full, at: nat, len: nat, key: seq<byte>, nonce: seq<byte>, i: nat)
    requires at <= ANN_END && at + len <= STATE_SZ && i < STATE_SZ
    ensures Decrypted(l, s, at, len, key, nonce, true)[i] == Ciphered(l, s[i], key, nonce, at, len, i)
  {
    StreamFromOne(l, s, at, len, key, nonce, i);
    hide XorStream, Ciphered;
  }

  lemma EncryptedAt(l: Library, s: Full, at: nat, len: nat, key: seq<byte>, nonce: seq<byte>, zeros: nat, i: nat)
    requires zeros <= at && at + len <= STATE_SZ && i < STATE_SZ
    ensures Encrypted(l, s, at, len, key, nonce, zeros)[i]
            == if at + len - zeros <= i < at + len then 0 else Ciphered(l, s[i], key, nonce, at, len, i)
  {
    StreamFromOne(l, s, at, len, key, nonce, i);
    hide XorStream, Ciphered;
  }

  lemma OtherBytes(t: Full, tag: Tag, i: nat)
    requires i < STATE_SZ && !(16 <= i < 32)
    ensures Overwrite(t, 16, tag)[i] == t[i]
  {
  }

  /** What stands in front of the tag is left alone. */
  lemma HeaderBytes(l: Library, s: Full, d: bv32, key: seq<byte>, nonce: seq<byte>, i: nat)
    requires HDR_SZ + AddBytes(d) + MsgBytes(d) <= STATE_SZ && i < 16
    ensures Process(l, s, d, key, nonce, true)[i] == s[i]
  {
    hide IsDecrypt, GetTrailingZeros, GetAddLen, GetLength, Authenticator, KeyByte;
  }

  lemma PartsFit(d: bv32)
    requires HDR_SZ + AddBytes(d) + MsgBytes(d) <= STATE_SZ
    ensures 48 + AddBytes(d) <= ANN_END && Pad(d) <= 48 + AddBytes(d)
  {
    hide GetLength;
  }

  lemma DecryptsAndTags(l: Library, s: Full, d: bv32, key: seq<byte>, nonce: seq<byte>, at: nat, len: nat)
    returns (tag: Tag)
    requires at == 48 + AddBytes(d) <= ANN_END && len == MsgBytes(d) && at + len <= STATE_SZ && IsDecrypt(d)
    ensures Process(l, s, d, key, nonce, true) == Overwrite(Decrypted(l, s, at, len, key, nonce, true), 16, tag)
    ensures tag == Authenticator(l, l.chacha(key, nonce, 0), s[48..at + len], d)
  {
    hide IsDecrypt, Authenticator, Decrypted, Encrypted, Overwrite, AddBytes, MsgBytes;
    tag := Authenticator(l, l.chacha(key, nonce, 0), s[48..at + len], d);
  }

  lemma EncryptsAndTags(l: Library, s: Full, d: bv32, key: seq<byte>, nonce: seq<byte>, at: nat, len: nat)
    returns (tag: Tag)
    requires at == 48 + AddBytes(d) <= ANN_END && len == MsgBytes(d) && at + len <= STATE_SZ && !IsDecrypt(d)
    requires Pad(d) <= at
    ensures var t := Encrypted(l, s, at, len, key, nonce, Pad(d));
            && Process(l, s, d, key, nonce, true) == Overwrite(t, 16, tag)
            && tag == Authenticator(l, l.chacha(key, nonce, 0), t[48..at + len], d)
  {
    hide IsDecrypt, Authenticator, Decrypted, Encrypted, Overwrite, AddBytes, MsgBytes;
    tag := Authenticator(l, l.chacha(key, nonce, 0), Encrypted(l, s, at, len, key, nonce, Pad(d))[48..at + len], d);
  }

  /**
   * The tag is that of the ciphertext: of what was there before a decryption, and of what is there
   * after an encryption.  Block 0 is its key.
   */
  lemma TagBytes(l: Library, s: Full, d: bv32, key: seq<byte>, nonce: seq<byte>, end: nat)
    requires HDR_SZ + AddBytes(d) + MsgBytes(d) <= STATE_SZ && end == 48 + AddBytes(d) + MsgBytes(d)
    ensures var r := Process(l, s, d, key, nonce, true);
            r[16..32] == Authenticator(l, l.chacha(key, nonce, 0), if IsDecrypt(d) then s[48..end] else r[48..end], d)
  {
    assert HDR_SZ == 48 && STATE_SZ == 2048;
    hide *;
    var at, len := 48 + AddBytes(d), MsgBytes(d);
    PartsFit(d);
    if IsDecrypt(d) {
      var tag := DecryptsAndTags(l, s, d, key, nonce, at, len);
      TagIsPut(Decrypted(l, s, at, len, key, nonce, true), tag, end);
    } else {
      var tag := EncryptsAndTags(l, s, d, key, nonce, at, len);
      TagIsPut(Encrypted(l, s, at, len, key, nonce, Pad(d)), tag, end);
    }
  }

  /** The text is followed by the two lengths, which leave out the padding. */
  lemma AuthenticatedText(l: Library, block0: Block, text: seq<byte>, d: bv32)
    ensures var add := (AddBytes(d) as bv64) - (GetAdditionalZeros(d) as bv64);
            var len := (MsgBytes(d) as bv64) - (GetTrailingZeros(d) as bv64);
            Authenticator(l, block0, text, d) == l.poly(block0, text + Bytes64(add) + Bytes64(len))
  {
    hide GetTrailingZeros, GetAddLen, GetLength, GetAdditionalZeros, Bytes64;
  }

  lemma TagIsPut(t: Full, tag: Tag, end: nat)
    requires 48 <= end <= STATE_SZ
    ensures Overwrite(t, 16, tag)[16..32] == tag && Overwrite(t, 16, tag)[48..end] == t[48..end]
  {
  }

  // ---------- one update ----------

  /** The item's bytes go to 32 and on, and the header word is made anew; then comes the encryption. */
  lemma UpdateStart(l: Library, s: Full, item: Item, i: nat)
    requires i < STATE_SZ && !(12 <= i < 16)
    ensures var m := MakeFuzzable(Overwrite(s, ITEM_AT, item));
            && Update(l, s, item, true) == Crypt(l, m, true)
            && m[i] == (if 32 <= i < 1056 then item[i - 32] else s[i])
            && Data(m) == FuzzableWord(Word32(s[16..20]))
  {
    hide Crypt, FuzzableWord, Word32, MakeFuzzable;
    FuzzableBytes(Overwrite(s, ITEM_AT, item));
    assert Overwrite(s, ITEM_AT, item)[16..20] == s[16..20];
  }

  /**
   * Encryption settles the header word and goes by it, under the nonce and the key that stand on
   * either side of it; a message of another version, or one that has failed, is only marked.
   */
  lemma CryptSteps(l: Library, s: Full)
    ensures var d := Data(s);
            if GetVersion(d) == 0 && !IsFailed(d) then
              var e := TruncatedWord(d);
              && HDR_SZ + AddBytes(e) + MsgBytes(e) <= STATE_SZ
              && Crypt(l, s, true) == Process(l, WithData(s, e), e, s[16..48], s[..12], true)
            else Crypt(l, s, true) == WithData(s, SetFailed(d, true))
  {
    TruncationFits(Data(s));
    hide Process, TruncatedWord, GetVersion, IsFailed, Word32, WithData, SetFailed;
  }

  /**
   * So an update as a whole: the header word comes from bytes 16 to 19, the nonce from the first 12,
   * the key from bytes 16 to 31 and the first half block of the item.
   */
  lemma UpdateBytes(l: Library, s: Full, item: Item, i: nat)
    requires 32 <= i < STATE_SZ
    ensures var d := TruncatedWord(FuzzableWord(Word32(s[16..20])));
            var at, len := 48 + AddBytes(d), MsgBytes(d);
            var before := if i < 1056 then item[i - 32] else s[i];
            Update(l, s, item, true)[i]
            == if !IsDecrypt(d) && at + len - Pad(d) <= i < at + len then 0
               else Ciphered(l, before, s[16..32] + item[..16], s[..12], at, len, i)
  {
    hide *;
    var m := Started(s, item);
    StartedIs(l, s, item, i);
    StartedKey(s, item);
    CryptSteps(l, m);
    FuzzableHeader(Word32(s[16..20]));
    var d := TruncatedWord(Data(m));
    MessageBytes(l, WithData(m, d), d, m[16..48], m[..12], i);
    WithDataKeeps(m, d, i);
  }

  /** The state that an update encrypts. */
  function Started(s: Full, item: Item): Full { MakeFuzzable(Overwrite(s, ITEM_AT, item)) }

  lemma StartedIs(l: Library, s: Full, item: Item, i: nat)
    requires 32 <= i < STATE_SZ
    ensures var m := Started(s, item);
            && HDR_SZ == 48 && STATE_SZ == 2048 && Update(l, s, item, true) == Crypt(l, m, true)
            && m[i] == (if i < 1056 then item[i - 32] else s[i])
            && Data(m) == FuzzableWord(Word32(s[16..20]))
  {
    hide Crypt, FuzzableWord, Word32, MakeFuzzable;
    FuzzableBytes(Overwrite(s, ITEM_AT, item));
    assert Overwrite(s, ITEM_AT, item)[16..20] == s[16..20];
  }

  lemma StartedKey(s: Full, item: Item)
    ensures Started(s, item)[16..48] == s[16..32] + item[..16] && Started(s, item)[..12] == s[..12]
  {
    hide FuzzableWord, Word32, MakeFuzzable;
    var m, t := Started(s, item), Overwrite(s, ITEM_AT, item);
    FuzzableBytes(t);
    forall k | 0 <= k < 32 ensures m[16..48][k] == (s[16..32] + item[..16])[k] {
      assert m[16 + k] == t[16 + k];
    }
    forall k | 0 <= k < 12 ensures m[..12][k] == s[..12][k] {
      assert m[k] == t[k];
    }
  }

  lemma WithDataKeeps(m: Full, d: bv32, i: nat)
    requires 32 <= i < STATE_SZ
    ensures WithData(m, d)[i] == m[i]
  {
    hide Bytes32;
  }

  /** The multiplication: the first 32 bytes as a scalar, times the point of the next 32, at 64. */
  lemma SmulBytes(l: Library, s: Full, i: nat)
    requires i < STATE_SZ
    ensures Smul(l, s)[i] == if 64 <= i < 96 then l.scalarMult(s[..32], l.scalarBase(s[32..64]))[i - 64] else s[i]
  {
  }

  /** The final hash of the whole state replaces its first 32 bytes. */
  lemma FinalBytes(l: Library, s: Full, i: nat)
    requires i < STATE_SZ
    ensures Final(l, s)[i] == if i < 32 then l.compress32(s)[i] else s[i]
  {
  }
}
