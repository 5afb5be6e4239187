/**
 * The hashing cycle (CryptoCycle.c) as functions of the state: one reference step and the fast step
 * the miner uses, which decrypts only what the next item will not overwrite.
 */
module CryptoCycle {
  import opened CycleState

  type Block = s: seq<byte> | |s| == 64 witness Zeros(64)
  type Digest32 = s: seq<byte> | |s| == 32 witness Zeros(32)
  type Tag = s: seq<byte> | |s| == 16 witness Zeros(16)
  type Item = s: seq<byte> | |s| == ITEM_SZ witness Zeros(ITEM_SZ)
  type Full = s: seq<byte> | |s| == STATE_SZ witness Zeros(STATE_SZ)

  /**
   * The library functions.  `chacha(key, nonce, n)` is block `n` of the ChaCha20 keystream, numbered
   * as in section 2.4 of RFC 8439; `poly(block, message)` is the Poly1305 tag under a one-time key.
   */
  datatype Library = Library(
    chacha: (seq<byte>, seq<byte>, nat) -> Block,
    poly: (seq<byte>, seq<byte>) -> Tag,
    compress32: seq<byte> -> Digest32,
    scalarBase: seq<byte> -> Digest32,
    scalarMult: (seq<byte>, seq<byte>) -> Digest32)

  /** The end of the bytes that the next item overwrites. */
  const ANN_END: nat := 1056
  const ITEM_AT: nat := 32

  /** Byte `i` of the keystream that starts with block `ic`. */
  function KeyByte(l: Library, key: seq<byte>, nonce: seq<byte>, ic: nat, i: nat): byte {
    l.chacha(key, nonce, ic + i / 64)[i % 64]
  }

  /** crypto_stream_chacha20_ietf_xor_ic in place on `len` bytes. */
  function XorStream(l: Library, s: seq<byte>, at: nat, len: nat, key: seq<byte>, nonce: seq<byte>,
                     ic: nat): (r: seq<byte>)
    requires at + len <= |s|
    ensures |r| == |s|
  {
    seq(|s|, i requires 0 <= i < |s| => if at <= i < at + len then s[i] ^ KeyByte(l, key, nonce, ic, i - at) else s[i])
  }

  // ---------- the header ----------

  function Data(s: Full): bv32 { Word32(s[12..16]) }
  function WithData(s: Full, d: bv32): Full { Overwrite(s, 12, Bytes32(d)) }
  function Nonce(s: Full): seq<byte> { s[..12] }
  function Key(s: Full): seq<byte> { s[16..48] }
  function ItemNo(s: Full): nat { Word64(s[16..24]) as nat }

  function FuzzableWord(d: bv32): bv32 {
    var e := SetFailed(SetVersion(d, 0), false);
    SetLength(e, GetLength(e) | 32)
  }

  /** The header word comes from the key; version 0, not failed, at least 32 blocks long. */
  function MakeFuzzable(s: Full): Full { WithData(s, FuzzableWord(Word32(s[16..20]))) }

  /** The length is cut to what fits behind the header and the additional data. */
  function TruncatedWord(d: bv32): bv32 {
    var len := GetLength(d);
    var maxLen: bv7 := 125 - (GetAddLen(d) as bv7);
    var final := if len > maxLen then maxLen else len;
    SetLength(SetTruncated(d, final != len), final)
  }

  function AddBytes(d: bv32): nat { GetAddLen(d) as nat * 16 }
  function MsgBytes(d: bv32): nat { GetLength(d) as nat * 16 }

  lemma TruncationFits(d: bv32)
    ensures HDR_SZ + AddBytes(TruncatedWord(d)) + MsgBytes(TruncatedWord(d)) <= STATE_SZ
  {
    var e := TruncatedWord(d);
    assert GetAddLen(e) == GetAddLen(d);
    var a, m := GetAddLen(e), GetLength(e);
    assert m <= 125 - (a as bv7);
    assert (125 - (a as bv7)) as nat == 125 - a as nat;
  }

  // ---------- encryption and authentication ----------

  /** The one-time authenticator: additional data and message, then their lengths without padding. */
  function Authenticator(l: Library, block0: Block, text: seq<byte>, d: bv32): Tag {
    var add := AddBytes(d) as bv64 - GetAdditionalZeros(d) as bv64;
    var len := MsgBytes(d) as bv64 - GetTrailingZeros(d) as bv64;
    l.poly(block0, text + Bytes64(add) + Bytes64(len))
  }

  /** Decrypting all of the message, or from the last whole block boundary before the item ends. */
  function Decrypted(l: Library, s: Full, at: nat, len: nat, key: seq<byte>, nonce: seq<byte>, last: bool): Full
    requires at <= ANN_END && at + len <= STATE_SZ
  {
    if last then XorStream(l, s, at, len, key, nonce, 1)
    else if at + len > ANN_END then
      var skip := (ANN_END - at) / 64;
      XorStream(l, s, at + skip * 64, len - skip * 64, key, nonce, 1 + skip)
    else s
  }

  /** Encrypting all of the message and clearing the zero padding at its end. */
  function Encrypted(l: Library, s: Full, at: nat, len: nat, key: seq<byte>, nonce: seq<byte>, zeros: nat): Full
    requires zeros <= at && at + len <= STATE_SZ
  {
    var c := XorStream(l, s, at, len, key, nonce, 1);
    if zeros > 0 then Overwrite(c, at + len - zeros, Zeros(zeros)) else c
  }

  function Crypt(l: Library, s: Full, last: bool): Full {
    var d := Data(s);
    if GetVersion(d) != 0 || IsFailed(d) then WithData(s, SetFailed(d, true))
    else
      TruncationFits(d);
      Process(l, WithData(s, TruncatedWord(d)), TruncatedWord(d), Key(s), Nonce(s), last)
  }

  /** The state and its tag, once its header word `d` is settled. */
  function Process(l: Library, s: Full, d: bv32, key: seq<byte>, nonce: seq<byte>, last: bool): Full
    requires HDR_SZ + AddBytes(d) + MsgBytes(d) <= STATE_SZ
  {
    var at, end, block0 := HDR_SZ + AddBytes(d), HDR_SZ + AddBytes(d) + MsgBytes(d), l.chacha(key, nonce, 0);
    if IsDecrypt(d) then
      var t := Decrypted(l, s, at, MsgBytes(d), key, nonce, last);
      Overwrite(t, 16, Authenticator(l, block0, s[HDR_SZ..end], d))
    else
      var t := Encrypted(l, s, at, MsgBytes(d), key, nonce, GetTrailingZeros(d) as nat);
      Overwrite(t, 16, Authenticator(l, block0, t[HDR_SZ..end], d))
  }

  function Update(l: Library, s: Full, item: Item, last: bool): Full {
    Crypt(l, MakeFuzzable(Overwrite(s, ITEM_AT, item)), last)
  }

  function Smul(l: Library, s: Full): Full {
    Overwrite(s, 64, l.scalarMult(s[..32], l.scalarBase(s[32..64])))
  }

  function Final(l: Library, s: Full): Full { Overwrite(s, 0, l.compress32(s)) }

  // ---------- starting states ----------

  const EXPAND_NONCE: seq<byte> := [0, 0, 0, 0, 0x50, 0x43, 0x5f, 0x45, 0x58, 0x50, 0x4e, 0x44]

  /** Hash_expand to a whole state, then the nonce. */
  function Init0(l: Library, seed: seq<byte>, nonce: bv64): Full {
    MakeFuzzable(Overwrite(XorStream(l, Zeros(STATE_SZ), 0, STATE_SZ, seed, EXPAND_NONCE, 0), 0, Bytes64(nonce)))
  }

  /** The miner's start: bytes 64 to 1023 are left as they were in `stale`. */
  function Init(l: Library, stale: Full, seed: seq<byte>, lowNonce: bv32): Full {
    var s1 := XorStream(l, Overwrite(stale, 0, Zeros(64)), 0, 64, seed, EXPAND_NONCE, 0);
    var s2 := MakeFuzzable(Overwrite(Overwrite(s1, 0, Bytes32(lowNonce)), 4, Bytes32(0)));
    XorStream(l, Overwrite(s2, 1024, Zeros(1024)), 1024, 1024, seed, EXPAND_NONCE, 16)
  }

  // ---------- the two agree where it matters ----------

  /** Equal except between `lo` and `hi`. */
  ghost predicate AgreeOutside(s: Full, t: Full, lo: nat, hi: nat) {
    forall i :: 0 <= i < STATE_SZ && !(lo <= i < hi) ==> s[i] == t[i]
  }

  /** Skipping whole blocks and starting at a later block counter gives the same key bytes. */
  lemma SameKeyByte(l: Library, key: seq<byte>, nonce: seq<byte>, at: nat, skip: nat, i: nat)
    requires at + skip * 64 <= i
    ensures KeyByte(l, key, nonce, 1 + skip, i - (at + skip * 64)) == KeyByte(l, key, nonce, 1, i - at)
  {
    var x := i - at;
    assert (x - skip * 64) / 64 == x / 64 - skip && (x - skip * 64) % 64 == x % 64;
  }

  lemma SkippingAgrees(l: Library, s: Full, at: nat, len: nat, key: seq<byte>, nonce: seq<byte>)
    requires HDR_SZ <= at <= ANN_END && at + len <= STATE_SZ
    ensures AgreeOutside(Decrypted(l, s, at, len, key, nonce, false), Decrypted(l, s, at, len, key, nonce, true),
                         HDR_SZ, ANN_END)
  {
    hide KeyByte;
    var fast, full := Decrypted(l, s, at, len, key, nonce, false), Decrypted(l, s, at, len, key, nonce, true);
    forall i | 0 <= i < STATE_SZ && !(HDR_SZ <= i < ANN_END) ensures fast[i] == full[i] {
      if i >= ANN_END && at + len > ANN_END {
        SameKeyByte(l, key, nonce, at, (ANN_END - at) / 64, i);
      }
    }
  }

  lemma OverwriteAgrees(s: Full, t: Full, lo: nat, hi: nat, at: nat, b: seq<byte>)
    requires AgreeOutside(s, t, lo, hi) && at + |b| <= STATE_SZ
    ensures AgreeOutside(Overwrite(s, at, b), Overwrite(t, at, b), lo, hi)
  {
  }

  /** The fast step differs from the full one only in bytes that the next item overwrites. */
  lemma CryptAgrees(l: Library, s: Full)
    ensures AgreeOutside(Crypt(l, s, false), Crypt(l, s, true), HDR_SZ, ANN_END)
  {
    hide AgreeOutside, Process, TruncatedWord;
    TruncationFits(Data(s));
    ProcessAgrees(l, WithData(s, TruncatedWord(Data(s))), TruncatedWord(Data(s)), Key(s), Nonce(s));
    AgreesWithItself(Crypt(l, s, false));
  }

  lemma ProcessAgrees(l: Library, s: Full, d: bv32, key: seq<byte>, nonce: seq<byte>)
    requires HDR_SZ + AddBytes(d) + MsgBytes(d) <= STATE_SZ
    ensures AgreeOutside(Process(l, s, d, key, nonce, false), Process(l, s, d, key, nonce, true), HDR_SZ, ANN_END)
  {
    hide AgreeOutside, Decrypted, Encrypted, Overwrite, Authenticator, GetAddLen, GetLength;
    var at := HDR_SZ + AddBytes(d);
    SkippingAgrees(l, s, at, MsgBytes(d), key, nonce);
    AgreesWithItself(Process(l, s, d, key, nonce, false));
    OverwriteAgrees(Decrypted(l, s, at, MsgBytes(d), key, nonce, false),
                    Decrypted(l, s, at, MsgBytes(d), key, nonce, true),
                    HDR_SZ, ANN_END, 16, Authenticator(l, l.chacha(key, nonce, 0), s[HDR_SZ..at + MsgBytes(d)], d));
  }

  lemma AgreesWithItself(s: Full)
    ensures AgreeOutside(s, s, HDR_SZ, ANN_END)
  {
  }
}
