/** Moving about the entry table and filling it from a proof: the first half of PacketCryptProof_hashProof. */
module TableFill {
  import opened Words
  import opened RangeTree
  import opened ProofTable
  import opened ProofCheck
  import opened TableWalk
  import opened BitReversal
  import opened EntryTable
  import opened ProofSoundness

  /** The entries in use. */
  ghost function Cells(tbl: Tbl): seq<Cell>
    requires tbl.count <= tbl.entries.Length
    reads tbl, tbl.entries
  {
    tbl.entries[..tbl.count]
  }

  // ---------- moving about the table ----------

  /** PcCompress_getAnn: follow the reversed bits of the number from the root. */
  method GetAnn(tbl: Tbl, annNum: nat, ghost anns: seq<nat>, ghost count: nat, ghost s: seq<Slot>, ghost i: nat)
    returns (e: nat)
    requires tbl.count <= tbl.entries.Length
    requires TableOk(anns, count, tbl.branchHeight, s, Cells(tbl)) && i < |anns| && anns[i] == annNum
    ensures e == Walk(Cells(tbl), tbl.branchHeight, annNum, 0)
    ensures e < |s| && s[e].d == 0 && s[e].k == annNum
  {
    hide *;
    CellsAre(tbl);
    ghost var t, h := Cells(tbl), tbl.branchHeight;
    RootSlot(anns, count, h, s, t);
    var path := Rev(annNum, tbl.branchHeight);
    e := 0;
    WalkUnfolds(t, h, annNum, h);
    for j := 0 to tbl.branchHeight
      invariant e == Walk(t, h, annNum, h - j) && e < |t|
      invariant path == Rev(annNum, h - j)
    {
      PathStep(annNum, h - j);
      WalkInRange(anns, count, h, s, t, i, h - j - 1);
      WalkUnfolds(t, h, annNum, h - j - 1);
      e := if path % 2 == 1 then tbl.entries[e].childRight else tbl.entries[e].childLeft;
      path := path / 2;
    }
    LeafSlot(anns, count, h, s, t, i);
  }

  lemma CellsAre(tbl: Tbl)
    requires tbl.count <= tbl.entries.Length
    ensures Cells(tbl) == tbl.entries[..tbl.count]
  {
  }

  lemma WalkUnfolds(t: seq<Cell>, h: nat, a: nat, d: nat)
    requires d <= h
    ensures d == h ==> Walk(t, h, a, d) == 0
    ensures d < h && Walk(t, h, a, d + 1) < |t| ==>
              var p := t[Walk(t, h, a, d + 1)];
              Walk(t, h, a, d) == if Shr(a, d) % 2 == 1 then p.childRight else p.childLeft
  {
    hide Shr;
  }

  lemma PathStep(annNum: nat, h: nat)
    requires h > 0
    ensures Rev(annNum, h) % 2 == Shr(annNum, h - 1) % 2 && Rev(annNum, h) / 2 == Rev(annNum, h - 1)
  {
    RevFirstStep(annNum, h);
  }

  lemma WalkInRange(anns: seq<nat>, count: nat, h: nat, s: seq<Slot>, t: seq<Cell>, i: nat, d: nat)
    requires TableOk(anns, count, h, s, t) && i < |anns| && d <= h
    ensures Walk(t, h, anns[i], d) < |t|
  {
    WalkArrives(anns, count, h, s, t, i, d);
  }

  /** PcCompress_getParent; none for the root. */
  method GetParent(tbl: Tbl, e: nat, ghost anns: seq<nat>, ghost count: nat, ghost s: seq<Slot>)
    returns (p: Option<nat>)
    requires tbl.count <= tbl.entries.Length && tbl.count <= MAX16
    requires TableOk(anns, count, tbl.branchHeight, s, Cells(tbl)) && e < |s|
    ensures p == if e == 0 then None else Some(s[e].parent)
    ensures e > 0 ==> ParentLinked(anns, s, e) && ChildrenLinked(anns, count, s, s[e].parent)
  {
    assert ShapedAt(anns, count, s[e], Cells(tbl)[e]);
    if e > 0 {
      assert ParentLinked(anns, s, e);
    }
    var parent := tbl.entries[e].parent;
    if parent >= tbl.count {
      assert parent == MAX16 && e == 0;
      return None;
    }
    return Some(parent);
  }

  /** PcCompress_getSibling, for an entry with a parent. */
  method GetSibling(tbl: Tbl, e: nat, ghost anns: seq<nat>, ghost count: nat, ghost s: seq<Slot>) returns (sib: nat)
    requires tbl.count <= tbl.entries.Length && tbl.count <= MAX16
    requires TableOk(anns, count, tbl.branchHeight, s, Cells(tbl)) && 0 < e < |s|
    ensures s[e].parent < |s| && sib < |s| && sib != e
    ensures e == s[s[e].parent].left ==> sib == s[s[e].parent].right
    ensures e != s[s[e].parent].left ==> sib == s[s[e].parent].left
  {
    var q := GetParent(tbl, e, anns, count, s);
    var p := q.value;
    assert ShapedAt(anns, count, s[p], Cells(tbl)[p]);
    assert tbl.entries[p].childLeft == e || tbl.entries[p].childRight == e;
    sib := if tbl.entries[p].childLeft == e then tbl.entries[p].childRight else tbl.entries[p].childLeft;
  }

  // ---------- filling the table ----------

  /** Fill in the announcement hashes. */
  method PutHashes(tbl: Tbl, annIdxs: seq<nat>, annHashes: seq<Hash>, ghost count: nat, ghost s: seq<Slot>)
    requires |annIdxs| == 4 && |annHashes| == 4
    requires tbl.count <= tbl.entries.Length
    requires TableOk(annIdxs, count, tbl.branchHeight, s, Cells(tbl))
    modifies tbl.entries
    ensures Cells(tbl) == WithHashes(old(Cells(tbl)), tbl.branchHeight, annIdxs, annHashes, 4)
    ensures TableOk(annIdxs, count, tbl.branchHeight, s, Cells(tbl))
  {
    ghost var t, h := Cells(tbl), tbl.branchHeight;
    for i := 0 to 4
      invariant Cells(tbl) == WithHashes(t, h, annIdxs, annHashes, i)
      invariant Shaped(annIdxs, count, s, Cells(tbl))
    {
      hide Linked, Shaped, Walk;
      var e := GetAnn(tbl, annIdxs[i], annIdxs, count, s, i);
      WalkSame(annIdxs, count, h, s, t, Cells(tbl), annIdxs[i], 0);
      WithHashesShaped(annIdxs, count, s, t, h, annHashes, i + 1);
      tbl.entries[e] := tbl.entries[e].(e := tbl.entries[e].e.(hash := annHashes[i]),
                                        flags := tbl.entries[e].flags.(hasHash := true));
    }
  }

  /** Fill in the hashes and ranges which are provided; -1 if the proof is too short or too long. */
  method ReadProof(tbl: Tbl, cpcp: seq<u8>) returns (ret: int)
    requires tbl.count <= tbl.entries.Length
    modifies tbl.entries
    ensures ret == if ReadFrom(old(Cells(tbl)), 0, cpcp).Some? then 0 else -1
    ensures ret == 0 ==> Some(Cells(tbl)) == ReadFrom(old(Cells(tbl)), 0, cpcp)
  {
    ghost var t := Cells(tbl);
    var off := 0;
    assert cpcp[0..] == cpcp && Cells(tbl)[..0] == [];
    assert forall cs: seq<Cell> :: [] + cs == cs;
    for i := 0 to tbl.count
      invariant off <= |cpcp|
      invariant forall x :: i <= x < tbl.count ==> tbl.entries[x] == t[x]
      invariant ReadFrom(t, 0, cpcp) == match ReadFrom(t, i, cpcp[off..])
                                        case None => None
                                        case Some(cs) => Some(Cells(tbl)[..i] + cs)
    {
      ghost var c, rest, done := tbl.entries[i], cpcp[off..], Cells(tbl)[..i];
      assert c == t[i];
      var ok, len := ReadEntry(tbl, i, cpcp, off);
      if !ok { return -1; }
      off := off + len;
      assert Cells(tbl)[..i + 1] == done + [tbl.entries[i]];
      ReadOne(t, i, rest, tbl.entries[i], cpcp[off..], done);
    }
    assert Cells(tbl)[..tbl.count] + [] == Cells(tbl);
    if off != |cpcp| { return -1; }
    return 0;
  }

  lemma ReadOne(t: seq<Cell>, i: nat, s: seq<u8>, c: Cell, rest: seq<u8>, done: seq<Cell>)
    requires i < |t| && ReadCell(t[i], s) == Some((c, rest))
    ensures (match ReadFrom(t, i, s) case None => None case Some(cs) => Some(done + cs))
         == (match ReadFrom(t, i + 1, rest) case None => None case Some(cs) => Some(done + [c] + cs))
  {
    if ReadFrom(t, i + 1, rest).Some? {
      var cs := ReadFrom(t, i + 1, rest).value;
      assert done + ([c] + cs) == done + [c] + cs;
    }
  }

  /** The part of the loop that reads for one entry. */
  method ReadEntry(tbl: Tbl, i: nat, cpcp: seq<u8>, off: nat) returns (ok: bool, len: nat)
    requires i < tbl.entries.Length && off <= |cpcp|
    modifies tbl.entries
    ensures ok == ReadCell(old(tbl.entries[i]), cpcp[off..]).Some?
    ensures ok ==> off + len <= |cpcp|
    ensures ok ==> ReadCell(old(tbl.entries[i]), cpcp[off..]) == Some((tbl.entries[i], cpcp[off + len..]))
    ensures forall x :: 0 <= x < tbl.entries.Length && x != i ==> tbl.entries[x] == old(tbl.entries[x])
  {
    hide ReadHash, ReadU64;
    ok, len := false, 0;
    if HasExplicitRange(tbl.entries[i].flags) {
      if off + 8 > |cpcp| { return; }
      assert cpcp[off..][..8] == cpcp[off..off + 8];
      assert cpcp[off..][8..] == cpcp[off + 8..];
      tbl.entries[i] := tbl.entries[i].(e := tbl.entries[i].e.(end := ReadU64(cpcp[off..off + 8])),
                                        flags := tbl.entries[i].flags.(hasRange := true));
      len := 8;
    }
    assert cpcp[off..][len..] == cpcp[off + len..];
    if !(tbl.entries[i].flags.hasHash || tbl.entries[i].flags.computable) {
      if off + len + 32 > |cpcp| { return; }
      assert cpcp[off + len..][..32] == cpcp[off + len..off + len + 32];
      assert cpcp[off + len..][32..] == cpcp[off + len + 32..];
      tbl.entries[i] := tbl.entries[i].(e := tbl.entries[i].e.(hash := ReadHash(cpcp[off + len..off + len + 32])),
                                        flags := tbl.entries[i].flags.(hasHash := true));
      len := len + 32;
    }
    ok := true;
  }
}
