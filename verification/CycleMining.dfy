/**
 * The hashing cycle in place on 2048-byte buffers, and the miners that run four of them side by side
 * (CryptoCycle.c), proved to give each lane the result of the reference cycle.
 */
module CycleMining {
  import opened CycleState
  import opened CryptoCycle

  const PAR_STATES: nat := 4
  const TABLE_SZ: nat := 8192

  // ---------- the reference cycle ----------

  /** `n` full updates, each with the item that the state names. */
  function Reference(l: Library, s: Full, pick: nat -> Item, n: nat): Full {
    if n == 0 then s
    else
      var t := Reference(l, s, pick, n - 1);
      Update(l, t, pick(ItemNo(t)), true)
  }

  /** The number the state names before update `j`. */
  function NthItem(l: Library, s: Full, pick: nat -> Item, j: nat): nat {
    ItemNo(Reference(l, s, pick, j))
  }

  /** The miner's states: only the fourth update decrypts everything. */
  function Fast(l: Library, s: Full, pick: nat -> Item, n: nat): Full {
    if n == 0 then s
    else
      var t := Fast(l, s, pick, n - 1);
      Update(l, t, pick(ItemNo(t)), n == 4)
  }

  lemma ItemHidesTheRest(s: Full, t: Full, item: Item)
    requires AgreeOutside(s, t, ITEM_AT, ANN_END)
    ensures Overwrite(s, ITEM_AT, item) == Overwrite(t, ITEM_AT, item)
  {
  }

  lemma SameItemNo(s: Full, t: Full)
    requires AgreeOutside(s, t, ITEM_AT, ANN_END)
    ensures ItemNo(s) == ItemNo(t)
  {
    assert s[16..24] == t[16..24];
  }

  lemma Widen(s: Full, t: Full, lo: nat, hi: nat)
    requires AgreeOutside(s, t, lo, hi) && ITEM_AT <= lo && hi <= ANN_END
    ensures AgreeOutside(s, t, ITEM_AT, ANN_END)
  {
  }

  /** Up to the last update the miner's state is stale only where the next item goes; then it is exact. */
  lemma {:induction false} FastFollowsReference(l: Library, s: Full, t: Full, pick: nat -> Item, n: nat)
    requires AgreeOutside(s, t, ITEM_AT, ANN_END) && n <= 4
    ensures AgreeOutside(Fast(l, s, pick, n), Reference(l, t, pick, n), ITEM_AT, ANN_END)
    ensures n == 4 ==> Fast(l, s, pick, n) == Reference(l, t, pick, n)
    ensures ItemNo(Fast(l, s, pick, n)) == NthItem(l, t, pick, n)
  {
    hide AgreeOutside, Crypt, Overwrite, ItemNo, MakeFuzzable;
    if n > 0 {
      FastFollowsReference(l, s, t, pick, n - 1);
      var a, b := Fast(l, s, pick, n - 1), Reference(l, t, pick, n - 1);
      var item := pick(ItemNo(b));
      SameItemNo(a, b);
      ItemHidesTheRest(a, b, item);
      var m := MakeFuzzable(Overwrite(b, ITEM_AT, item));
      CryptAgrees(l, m);
      Widen(Crypt(l, m, false), Crypt(l, m, true), HDR_SZ, ANN_END);
      Reflexive(Crypt(l, m, true));
    }
    SameItemNo(Fast(l, s, pick, n), Reference(l, t, pick, n));
  }

  lemma Reflexive(s: Full)
    ensures AgreeOutside(s, s, ITEM_AT, ANN_END)
  {
  }

  // ---------- the two starting states ----------

  /** The miner's start leaves stale bytes only where the first item goes. */
  lemma InitAgrees(l: Library, stale: Full, seed: seq<byte>, lowNonce: bv32)
    ensures AgreeOutside(Init(l, stale, seed, lowNonce), Init0(l, seed, lowNonce as bv64), ITEM_AT, ANN_END)
  {
    var a1 := XorStream(l, Overwrite(stale, 0, Zeros(64)), 0, 64, seed, EXPAND_NONCE, 0);
    var b1 := XorStream(l, Zeros(STATE_SZ), 0, STATE_SZ, seed, EXPAND_NONCE, 0);
    var a2 := Overwrite(Overwrite(a1, 0, Bytes32(lowNonce)), 4, Bytes32(0));
    var b2 := Overwrite(b1, 0, Bytes64(lowNonce as bv64));
    StreamsAgree(l, stale, seed);
    NonceBytes(lowNonce);
    assert forall i :: 0 <= i < 64 ==> a2[i] == b2[i] by {
      hide KeyByte, Bytes32, Bytes64, XorStream;
    }
    hide KeyByte, Bytes32, Bytes64, XorStream, FuzzableWord;
    var a3, b3 := MakeFuzzable(a2), MakeFuzzable(b2);
    FuzzableAgrees(a2, b2);
    UpperHalfAgrees(l, a3, seed);
    assert forall i :: 1024 <= i < STATE_SZ ==> b3[i] == b1[i];
  }

  lemma StreamsAgree(l: Library, stale: Full, seed: seq<byte>)
    ensures var a := XorStream(l, Overwrite(stale, 0, Zeros(64)), 0, 64, seed, EXPAND_NONCE, 0);
            var b := XorStream(l, Zeros(STATE_SZ), 0, STATE_SZ, seed, EXPAND_NONCE, 0);
            forall i :: 0 <= i < 64 ==> a[i] == b[i]
  {
    hide KeyByte;
  }

  lemma NonceBytes(n: bv32)
    ensures Bytes64(n as bv64) == Bytes32(n) + Bytes32(0)
  {
  }

  lemma FuzzableAgrees(s: Full, t: Full)
    requires forall i :: 0 <= i < 64 ==> s[i] == t[i]
    ensures forall i :: 0 <= i < 64 ==> MakeFuzzable(s)[i] == MakeFuzzable(t)[i]
  {
    assert s[16..20] == t[16..20];
    hide FuzzableWord, Bytes32, Word32;
  }

  /** Block 16 of the stream starts at byte 1024. */
  lemma UpperHalfAgrees(l: Library, s: Full, seed: seq<byte>)
    ensures var a := XorStream(l, Overwrite(s, 1024, Zeros(1024)), 1024, 1024, seed, EXPAND_NONCE, 16);
            var b := XorStream(l, Zeros(STATE_SZ), 0, STATE_SZ, seed, EXPAND_NONCE, 0);
            && (forall i :: 1024 <= i < STATE_SZ ==> a[i] == b[i])
            && (forall i :: 0 <= i < 1024 ==> a[i] == s[i])
  {
    forall i | 1024 <= i < STATE_SZ
      ensures KeyByte(l, seed, EXPAND_NONCE, 16, i - 1024) == KeyByte(l, seed, EXPAND_NONCE, 0, i)
    {
      assert 16 + (i - 1024) / 64 == i / 64 && (i - 1024) % 64 == i % 64;
    }
    hide KeyByte;
  }

  // ---------- a step never fails ----------

  /** Writes that miss the header word keep it. */
  lemma DataKept(s: Full, t: Full)
    requires forall i :: 12 <= i < 16 ==> s[i] == t[i]
    ensures Data(s) == Data(t)
  {
    assert s[12..16] == t[12..16];
  }

  lemma DataSet(s: Full, d: bv32)
    ensures Data(WithData(s, d)) == d && Key(WithData(s, d)) == Key(s) && Nonce(WithData(s, d)) == Nonce(s)
  {
    hide Word32, Bytes32;
    assert WithData(s, d)[12..16] == Bytes32(d);
    assert Key(WithData(s, d)) == Key(s) && Nonce(WithData(s, d)) == Nonce(s);
  }

  lemma FuzzableHeader(d: bv32)
    ensures var e := FuzzableWord(d);
            GetVersion(e) == 0 && !IsFailed(e) && GetLength(e) == GetLength(d) | 32
  {
    hide GetVersion, IsFailed, GetAddLen, IsDecrypt, GetTrailingZeros, GetAdditionalZeros, IsTruncated, GetLength,
         SetVersion, SetFailed, SetLength;
    var a, b := SetVersion(d, 0), SetFailed(SetVersion(d, 0), false);
    SetsVersion(d, 0);
    SetsFailed(a, false);
    SetsLength(b, GetLength(b) | 32);
  }

  lemma TruncatedHeader(d: bv32)
    ensures var e := TruncatedWord(d);
            GetVersion(e) == GetVersion(d) && IsFailed(e) == IsFailed(d) && GetAddLen(e) == GetAddLen(d)
  {
    hide GetVersion, IsFailed, GetAddLen, IsDecrypt, GetTrailingZeros, GetAdditionalZeros, IsTruncated, GetLength,
         SetTruncated, SetLength;
    var len := GetLength(d);
    var maxLen: bv7 := 125 - (GetAddLen(d) as bv7);
    var final := if len > maxLen then maxLen else len;
    SetsTruncated(d, final != len);
    SetsLength(SetTruncated(d, final != len), final);
  }

  /** After a fuzzable header, encryption does not set the fail flag. */
  lemma FuzzableNeverFails(l: Library, s: Full, last: bool)
    ensures var r := Crypt(l, MakeFuzzable(s), last); !IsFailed(Data(r)) && GetVersion(Data(r)) == 0
  {
    var m, w := MakeFuzzable(s), Word32(s[16..20]);
    DataSet(s, FuzzableWord(w));
    FuzzableHeader(w);
    var d := TruncatedWord(Data(m));
    TruncatedHeader(Data(m));
    DataSet(m, d);
    CryptKeepsData(l, m, last);
  }

  /** What `update` asserts. */
  lemma UpdateNeverFails(l: Library, s: Full, item: Item, last: bool)
    ensures !IsFailed(Data(Update(l, s, item, last))) && GetVersion(Data(Update(l, s, item, last))) == 0
  {
    FuzzableNeverFails(l, Overwrite(s, ITEM_AT, item), last);
    hide Crypt, MakeFuzzable, IsFailed, GetVersion, Data;
  }

  lemma CryptKeepsData(l: Library, m: Full, last: bool)
    requires GetVersion(Data(m)) == 0 && !IsFailed(Data(m))
    ensures Data(Crypt(l, m, last)) == TruncatedWord(Data(m))
  {
    hide Word32, KeyByte, Authenticator, TruncatedWord, GetVersion, IsFailed, IsDecrypt, GetTrailingZeros, GetAddLen,
         GetLength;
    var d := TruncatedWord(Data(m));
    TruncationFits(Data(m));
    DataSet(m, d);
    var r, s1 := Crypt(l, m, last), WithData(m, d);
    assert forall i :: 12 <= i < 16 ==> r[i] == s1[i];
    DataKept(r, s1);
  }

  // ---------- in place ----------

  method SetData(st: array<byte>, d: bv32)
    requires st.Length == STATE_SZ
    modifies st
    ensures st[..] == WithData(old(st[..]), d)
  {
    Put(st, 12, Bytes32(d));
  }

  lemma WithDataTwice(s: Full, e: bv32, d: bv32)
    ensures WithData(WithData(s, e), d) == WithData(s, d)
  {
    hide Bytes32;
  }

  lemma WordAt(st: array<byte>, at: nat)
    requires st.Length == STATE_SZ && at + 4 <= STATE_SZ
    ensures st[..][at..at + 4] == st[at..at + 4]
  {
  }

  // The setters of CryptoCycle.h; `e` is the header word last written over the state `s`.

  method SetVersionAt(st: array<byte>, v: bv7, ghost s: Full, ghost e: bv32)
    requires st.Length == STATE_SZ && st[..] == WithData(s, e)
    modifies st
    ensures st[..] == WithData(s, SetVersion(e, v))
  {
    hide WithData, SetVersion;
    var d := GetData(st, s, e);
    WithDataTwice(s, e, SetVersion(e, v));
    SetData(st, SetVersion(d, v));
  }

  method SetFailedAt(st: array<byte>, v: bool, ghost s: Full, ghost e: bv32)
    requires st.Length == STATE_SZ && st[..] == WithData(s, e)
    modifies st
    ensures st[..] == WithData(s, SetFailed(e, v))
  {
    hide WithData, SetFailed;
    var d := GetData(st, s, e);
    WithDataTwice(s, e, SetFailed(e, v));
    SetData(st, SetFailed(d, v));
  }

  method SetLengthAt(st: array<byte>, v: bv7, ghost s: Full, ghost e: bv32)
    requires st.Length == STATE_SZ && st[..] == WithData(s, e)
    modifies st
    ensures st[..] == WithData(s, SetLength(e, v))
  {
    hide WithData, SetLength;
    var d := GetData(st, s, e);
    WithDataTwice(s, e, SetLength(e, v));
    SetData(st, SetLength(d, v));
  }

  /** makeFuzzable: copy, then one setter after the other on the header word. */
  method MakeFuzzableAt(st: array<byte>)
    requires st.Length == STATE_SZ
    modifies st
    ensures st[..] == MakeFuzzable(old(st[..]))
  {
    hide Word32, WithData, SetVersion, SetFailed, SetLength, GetLength, GetVersion, IsFailed, FuzzableWord;
    ghost var s: Full := st[..];
    WordAt(st, 16);
    var w := Word32(st[16..20]);
    SetData(st, w);
    SetVersionAt(st, 0, s, w);
    SetFailedAt(st, false, s, SetVersion(w, 0));
    LengthenAt(st, s, w);
  }

  method LengthenAt(st: array<byte>, ghost s: Full, ghost w: bv32)
    requires st.Length == STATE_SZ && st[..] == WithData(s, SetFailed(SetVersion(w, 0), false))
    modifies st
    ensures st[..] == WithData(s, FuzzableWord(w))
  {
    FieldsOnTheWay(w);
    hide WithData, SetLength, SetFailed, SetVersion, GetLength, GetVersion, IsFailed;
    var d := GetData(st, s, SetFailed(SetVersion(w, 0), false));
    assert !IsFailed(d) && GetVersion(d) == 0;
    SetLengthAt(st, GetLength(d) | 32, s, SetFailed(SetVersion(w, 0), false));
  }

  lemma FieldsOnTheWay(w: bv32)
    ensures var d := SetFailed(SetVersion(w, 0), false);
            !IsFailed(d) && GetVersion(d) == 0
  {
    hide GetVersion, IsFailed, GetAddLen, IsDecrypt, GetTrailingZeros, GetAdditionalZeros, IsTruncated, GetLength,
         SetVersion, SetFailed;
    SetsVersion(w, 0);
    SetsFailed(SetVersion(w, 0), false);
  }

  /** Read the header word, known to have been written last. */
  method GetData(st: array<byte>, ghost s: Full, ghost e: bv32) returns (d: bv32)
    requires st.Length == STATE_SZ && st[..] == WithData(s, e)
    ensures d == e
  {
    DataSet(s, e);
    WordAt(st, 12);
    d := Word32(st[12..16]);
  }

  method XorInPlace(l: Library, st: array<byte>, at: nat, len: nat, key: seq<byte>, nonce: seq<byte>, ic: nat)
    requires at + len <= st.Length
    modifies st
    ensures st[..] == XorStream(l, old(st[..]), at, len, key, nonce, ic)
  {
    hide KeyByte;
    for i := 0 to len
      invariant forall k :: 0 <= k < st.Length ==>
                  st[k] == if at <= k < at + i then old(st[k]) ^ KeyByte(l, key, nonce, ic, k - at) else old(st[k])
    {
      st[at + i] := st[at + i] ^ KeyByte(l, key, nonce, ic, i);
    }
  }

  method GetLengthAndTruncate(st: array<byte>) returns (len: bv7)
    requires st.Length == STATE_SZ
    modifies st
    ensures st[..] == WithData(old(st[..]), TruncatedWord(Data(old(st[..])))) && len == GetLength(Data(st[..]))
  {
    ghost var s: Full := st[..];
    WordAt(st, 12);
    var d := Word32(st[12..16]);
    hide Word32, WithData, SetTruncated, SetLength, GetAddLen, GetVersion, IsFailed, IsDecrypt, GetTrailingZeros,
         GetAdditionalZeros, IsTruncated, GetLength;
    len := GetLength(d);
    var maxLen: bv7 := 125 - (GetAddLen(d) as bv7);
    var finalLen := if len > maxLen then maxLen else len;
    ghost var e := SetTruncated(d, finalLen != len);
    SetData(st, SetTruncated(d, finalLen != len));
    d := GetData(st, s, e);
    WithDataTwice(s, e, SetLength(e, finalLen));
    SetData(st, SetLength(d, finalLen));
    DataSet(s, SetLength(e, finalLen));
    SetsLength(e, finalLen);
    len := finalLen;
  }

  method DecryptInPlace(l: Library, st: array<byte>, at: nat, len: nat, key: seq<byte>, nonce: seq<byte>, last: bool)
    requires st.Length == STATE_SZ && at <= ANN_END && at + len <= STATE_SZ
    modifies st
    ensures st[..] == Decrypted(l, old(st[..]), at, len, key, nonce, last)
  {
    hide XorStream;
    if !last {
      if at + len > ANN_END {
        var iv := 1 + (ANN_END - at) / 64;
        XorInPlace(l, st, at + (iv - 1) * 64, len - (iv - 1) * 64, key, nonce, iv);
      }
    } else {
      XorInPlace(l, st, at, len, key, nonce, 1);
    }
  }

  method EncryptInPlace(l: Library, st: array<byte>, at: nat, len: nat, key: seq<byte>, nonce: seq<byte>, tzc: nat)
    requires st.Length == STATE_SZ && tzc <= at && at + len <= STATE_SZ
    modifies st
    ensures st[..] == Encrypted(l, old(st[..]), at, len, key, nonce, tzc)
  {
    hide XorStream, Overwrite;
    XorInPlace(l, st, at, len, key, nonce, 1);
    if tzc > 0 {
      Put(st, at + len - tzc, Zeros(tzc));
    }
  }

  method CryptInPlace(l: Library, st: array<byte>, last: bool)
    requires st.Length == STATE_SZ
    modifies st
    ensures st[..] == Crypt(l, old(st[..]), last)
  {
    ghost var s: Full := st[..];
    WordAt(st, 12);
    assert st[..][16..48] == st[16..48] && st[..][..12] == st[..12];
    var d := Word32(st[12..16]);
    hide Word32, GetVersion, IsFailed, TruncatedWord, WithData, Process, SetFailed, AddBytes;
    if GetVersion(d) != 0 || IsFailed(d) {
      SetData(st, SetFailed(d, true));
      return;
    }
    var nonce, key := st[..12], st[16..48];
    var _ := GetLengthAndTruncate(st);
    TruncationFits(d);
    TruncatedHeader(d);
    DataSet(s, TruncatedWord(d));
    d := GetData(st, s, TruncatedWord(d));
    ProcessInPlace(l, st, d, key, nonce, last);
  }

  method ProcessInPlace(l: Library, st: array<byte>, d: bv32, key: seq<byte>, nonce: seq<byte>, last: bool)
    requires st.Length == STATE_SZ && HDR_SZ + AddBytes(d) + MsgBytes(d) <= STATE_SZ
    modifies st
    ensures st[..] == Process(l, old(st[..]), d, key, nonce, last)
  {
    hide GetLength, GetAddLen, IsDecrypt, GetTrailingZeros, Authenticator, Decrypted, Encrypted, Overwrite;
    var tag := CryptAndTag(l, st, d, HDR_SZ + AddBytes(d), MsgBytes(d), key, nonce, l.chacha(key, nonce, 0), last);
    Put(st, 16, tag);
  }

  /** Authenticate what is decrypted before decrypting it, and what is encrypted afterwards. */
  method CryptAndTag(l: Library, st: array<byte>, d: bv32, content: nat, msgLen: nat, key: seq<byte>, nonce: seq<byte>,
                     block0: Block, last: bool) returns (tag: Tag)
    requires st.Length == STATE_SZ && HDR_SZ <= content <= ANN_END && content + msgLen <= STATE_SZ
    modifies st
    ensures IsDecrypt(d) ==> st[..] == Decrypted(l, old(st[..]), content, msgLen, key, nonce, last)
    ensures IsDecrypt(d) ==> tag == Authenticator(l, block0, old(st[..])[HDR_SZ..content + msgLen], d)
    ensures !IsDecrypt(d) ==>
              st[..] == Encrypted(l, old(st[..]), content, msgLen, key, nonce, GetTrailingZeros(d) as nat)
    ensures !IsDecrypt(d) ==> tag == Authenticator(l, block0, st[..][HDR_SZ..content + msgLen], d)
  {
    hide IsDecrypt, GetTrailingZeros, Authenticator, Decrypted, Encrypted;
    var end := content + msgLen;
    if IsDecrypt(d) {
      assert st[..][HDR_SZ..end] == st[HDR_SZ..end];
      tag := Authenticator(l, block0, st[HDR_SZ..end], d);
      DecryptInPlace(l, st, content, msgLen, key, nonce, last);
    } else {
      EncryptInPlace(l, st, content, msgLen, key, nonce, GetTrailingZeros(d) as nat);
      assert st[..][HDR_SZ..end] == st[HDR_SZ..end];
      tag := Authenticator(l, block0, st[HDR_SZ..end], d);
    }
  }

  /** The miner's `init`: two ranges are written, the rest is left alone. */
  method InitInPlace(l: Library, st: array<byte>, seed: seq<byte>, lowNonce: bv32)
    requires st.Length == STATE_SZ
    modifies st
    ensures st[..] == Init(l, old(st[..]), seed, lowNonce)
  {
    hide Overwrite, XorStream, FuzzableWord, Bytes32;
    Put(st, 0, Zeros(64));
    XorInPlace(l, st, 0, 64, seed, EXPAND_NONCE, 0);
    Put(st, 0, Bytes32(lowNonce));
    Put(st, 4, Bytes32(0));
    MakeFuzzableAt(st);
    Put(st, 1024, Zeros(1024));
    XorInPlace(l, st, 1024, 1024, seed, EXPAND_NONCE, 16);
  }

  /** CryptoCycle_init: Hash_expand over the whole state. */
  method Init0InPlace(l: Library, st: array<byte>, seed: seq<byte>, nonce: bv64)
    requires st.Length == STATE_SZ
    modifies st
    ensures st[..] == Init0(l, seed, nonce)
  {
    hide XorStream, FuzzableWord, Bytes64;
    ghost var s := st[..];
    Put(st, 0, Zeros(STATE_SZ));
    assert st[..] == Zeros(STATE_SZ);
    hide Overwrite;
    XorInPlace(l, st, 0, STATE_SZ, seed, EXPAND_NONCE, 0);
    Put(st, 0, Bytes64(nonce));
    MakeFuzzableAt(st);
  }

  method UpdateInPlace(l: Library, st: array<byte>, item: Item, last: bool)
    requires st.Length == STATE_SZ
    modifies st
    ensures st[..] == Update(l, old(st[..]), item, last)
  {
    ghost var s := st[..];
    hide Overwrite, Crypt, MakeFuzzable;
    Put(st, ITEM_AT, item);
    MakeFuzzableAt(st);
    CryptInPlace(l, st, last);
    UpdateNeverFails(l, s, item, last);
    assert !IsFailed(Data(st[..]));
  }

  method SmulInPlace(l: Library, st: array<byte>)
    requires st.Length == STATE_SZ
    modifies st
    ensures st[..] == Smul(l, old(st[..]))
  {
    hide Overwrite;
    assert st[..][32..64] == st[32..64] && st[..][..32] == st[..32];
    var pubkey := l.scalarBase(st[32..64]);
    Put(st, 64, l.scalarMult(st[..32], pubkey));
  }

  method FinalInPlace(l: Library, st: array<byte>)
    requires st.Length == STATE_SZ
    modifies st
    ensures st[..] == Final(l, old(st[..]))
  {
    hide Overwrite;
    Put(st, 0, l.compress32(st[..]));
  }
}
