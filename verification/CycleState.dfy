/** The 2048-byte hashing state: byte ranges, its header word (CryptoCycle.h), and in-place writes. */
module CycleState {
  type byte = bv8

  const STATE_SZ: nat := 2048
  const ITEM_SZ: nat := 1024
  const HDR_SZ: nat := 48

  /** The number a byte stands for. */
  function Value(b: byte): (v: nat)
    ensures v < 0x100 && (v == 0 <==> b == 0)
  {
    b as nat
  }

  // ---------- byte ranges ----------

  function Overwrite(s: seq<byte>, at: nat, b: seq<byte>): (r: seq<byte>)
    requires at + |b| <= |s|
    ensures |r| == |s|
  {
    seq(|s|, i requires 0 <= i < |s| => if at <= i < at + |b| then b[i - at] else s[i])
  }

  function Zeros(n: nat): (r: seq<byte>)
    ensures |r| == n
  {
    seq(n, _ => 0)
  }

  method Put(st: array<byte>, at: nat, b: seq<byte>)
    requires at + |b| <= st.Length
    modifies st
    ensures st[..] == Overwrite(old(st[..]), at, b)
  {
    for i := 0 to |b|
      invariant forall k :: 0 <= k < st.Length ==> st[k] == if at <= k < at + i then b[k - at] else old(st[k])
    {
      st[at + i] := b[i];
    }
  }

  // ---------- little-endian words ----------

  function Word32(s: seq<byte>): bv32
    requires |s| == 4
  {
    (s[0] as bv32) | ((s[1] as bv32) << 8) | ((s[2] as bv32) << 16) | ((s[3] as bv32) << 24)
  }

  function Bytes32(w: bv32): (s: seq<byte>)
    ensures |s| == 4 && Word32(s) == w
  {
    [(w & 0xff) as byte, ((w >> 8) & 0xff) as byte, ((w >> 16) & 0xff) as byte, ((w >> 24) & 0xff) as byte]
  }

  function Word64(s: seq<byte>): bv64
    requires |s| == 8
  {
    (Word32(s[..4]) as bv64) | ((Word32(s[4..]) as bv64) << 32)
  }

  function Bytes64(w: bv64): (s: seq<byte>)
    ensures |s| == 8
  {
    Bytes32((w & 0xffff_ffff) as bv32) + Bytes32((w >> 32) as bv32)
  }

  // ---------- the header word ----------

  function GetAdditionalZeros(d: bv32): bv4 { (d & 15) as bv4 }
  function GetTrailingZeros(d: bv32): bv4 { ((d >> 8) & 15) as bv4 }
  predicate IsDecrypt(d: bv32) { (d >> 12) & 1 != 0 }
  function GetAddLen(d: bv32): bv3 { ((d >> 13) & 7) as bv3 }
  predicate IsTruncated(d: bv32) { (d >> 16) & 1 != 0 }
  function GetLength(d: bv32): bv7 { ((d >> 17) & 127) as bv7 }
  predicate IsFailed(d: bv32) { (d >> 24) & 1 != 0 }
  function GetVersion(d: bv32): bv7 { ((d >> 25) & 127) as bv7 }

  function SetTruncated(d: bv32, v: bool): bv32 { (d & !(1 << 16)) | ((if v then 1 else 0) << 16) }
  function SetLength(d: bv32, v: bv7): bv32 { (d & !(127 << 17)) | ((v as bv32) << 17) }
  function SetFailed(d: bv32, v: bool): bv32 { (d & !(1 << 24)) | ((if v then 1 else 0) << 24) }
  function SetVersion(d: bv32, v: bv7): bv32 { (d & !(127 << 25)) | ((v as bv32) << 25) }

  /** The header word read field by field. */
  datatype Header = Header(version: bv7, failed: bool, length: bv7, truncated: bool, addLen: bv3, decrypt: bool,
                           trailingZeros: bv4, additionalZeros: bv4)

  function Decode(d: bv32): Header {
    Header(GetVersion(d), IsFailed(d), GetLength(d), IsTruncated(d), GetAddLen(d), IsDecrypt(d),
           GetTrailingZeros(d), GetAdditionalZeros(d))
  }

  // A setter changes its own field and no other.

  lemma SetsTruncated(d: bv32, t: bool)
    ensures Decode(SetTruncated(d, t)) == Decode(d).(truncated := t)
  {
  }

  lemma SetsLength(d: bv32, len: bv7)
    ensures Decode(SetLength(d, len)) == Decode(d).(length := len)
  {
  }

  lemma SetsFailed(d: bv32, f: bool)
    ensures Decode(SetFailed(d, f)) == Decode(d).(failed := f)
  {
  }

  lemma SetsVersion(d: bv32, v: bv7)
    ensures Decode(SetVersion(d, v)) == Decode(d).(version := v)
  {
  }
}
