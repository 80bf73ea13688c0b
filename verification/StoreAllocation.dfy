/**
 Outside truncation blocks only get fewer, and the lowest FREE one goes first: a
 store that never used more than m blocks at a time never touched one from m on.
 */
module StoreAllocation {
  import opened Memory
  import opened StoreModel
  import opened Numbering
  import opened StoreOwnership

  /** Every TAKEN block has a number below m. */
  ghost predicate Below(t: seq<Allocation>, m: int) {
    forall b :: 0 <= b < |t| && t[b] == TAKEN ==> b < m
  }

  /** t' comes from t by allocations, each of the lowest FREE block. */
  ghost predicate LowestFirst(t: seq<Allocation>, t': seq<Allocation>) {
    && |t'| == |t|
    && (t' == t || FreeCount(t') < FreeCount(t))
    && (forall b :: 0 <= b < |t| && t[b] == TAKEN ==> t'[b] == TAKEN)
    && (forall m :: Below(t, m) && m >= |t| - FreeCount(t') ==> Below(t', m))
  }

  lemma LowestFirstTrans(t: seq<Allocation>, t1: seq<Allocation>, t2: seq<Allocation>)
    requires LowestFirst(t, t1) && LowestFirst(t1, t2)
    ensures LowestFirst(t, t2)
  {
    hide FreeCount;
  }

  lemma {:induction false} CountBoth(t: seq<Allocation>)
    ensures Count(t, FREE) + Count(t, TAKEN) == |t|
  {
    if t != [] {
      CountBoth(t[..|t| - 1]);
    }
  }

  /** A TAKEN prefix counts in full. */
  lemma {:induction false} PrefixCounts(t: seq<Allocation>, k: nat)
    requires k <= |t| && forall b :: 0 <= b < k ==> t[b] == TAKEN
    ensures Count(t, TAKEN) >= k
  {
    if k < |t| {
      PrefixCounts(t[..|t| - 1], k);
    } else {
      CountUniform(t, TAKEN, TAKEN);
    }
  }

  /** At most m blocks lie below m; when as many are TAKEN, all of them are. */
  lemma {:induction false} PackedPrefix(t: seq<Allocation>, m: nat)
    requires Below(t, m)
    ensures Count(t, TAKEN) <= m
    ensures Count(t, TAKEN) == m ==> forall b :: 0 <= b < m && b < |t| ==> t[b] == TAKEN
  {
    if t != [] {
      var n := |t| - 1;
      assert Below(t[..n], if m <= n then m else n);
      PackedPrefix(t[..n], if m <= n then m else n);
      assert forall b :: 0 <= b < n ==> t[..n][b] == t[b];
    }
  }

  lemma AllocLowestFirst(s: State)
    requires WellFormed(s)
    ensures LowestFirst(s.blocks, DataBlockAlloc(s).0.blocks)
  {
    var b := FirstFree(s.blocks, 0);
    if b != -1 {
      var t' := s.blocks[b := TAKEN];
      AllocCounts(s);
      PrefixCounts(t', b + 1);
      CountBoth(t');
    }
  }

  lemma SameBlocks(t: seq<Allocation>)
    ensures LowestFirst(t, t)
  {
  }

  lemma {:induction false} FillDirectLowest(s: State, f: nat, i: nat, last: int)
    requires WellFormed(s) && f < INODE_TABLE_SIZE
    ensures LowestFirst(s.blocks, FillDirect(s, f, i, last).blocks)
    decreases DIRECT_BLOCK_POINTERS - i
  {
    hide LowestFirst, DataBlockAlloc;
    if i > last || i >= DIRECT_BLOCK_POINTERS {
      SameBlocks(s.blocks);
    } else if s.inodes[f].direct[i] == -1 {
      var (s1, b) := DataBlockAlloc(s);
      AllocLowestFirst(s);
      FillDirectLowest(SetDirect(s1, f, i, b), f, i + 1, last);
      LowestFirstTrans(s.blocks, s1.blocks, FillDirect(s, f, i, last).blocks);
    } else {
      FillDirectLowest(s, f, i + 1, last);
    }
  }

  lemma {:induction false} FillPointersLowest(s: State, blk: nat, j: nat, last: int)
    requires WellFormed(s) && blk < DATA_BLOCKS
    ensures LowestFirst(s.blocks, FillPointers(s, blk, j, last).blocks)
    decreases MAX_BLOCK_POINTERS - j
  {
    if j > last || j >= MAX_BLOCK_POINTERS {
      SameBlocks(s.blocks);
    } else if ReadInt(s.data, PointerAt(blk, j)) == -1 {
      var (s1, b) := DataBlockAlloc(s);
      hide LowestFirst, DataBlockAlloc;
      AllocLowestFirst(s);
      FillPointersLowest(SetPointer(s1, blk, j, b), blk, j + 1, last);
      LowestFirstTrans(s.blocks, s1.blocks, FillPointers(s, blk, j, last).blocks);
    } else {
      FillPointersLowest(s, blk, j + 1, last);
    }
  }

  lemma UpdateLowest(s: State, h: nat)
    requires WellFormed(s) && h < MAX_OPEN_FILES
    ensures LowestFirst(s.blocks, InodeUpdate(s, h).0.blocks)
  {
    hide LowestFirst, FillDirect, FillPointers;
    var file := s.files[h];
    SameBlocks(s.blocks);
    if ValidInumber(file.inumber) {
      var s1 := FillDirect(s, file.inumber, 0, file.boffset);
      FillDirectLowest(s, file.inumber, 0, file.boffset);
      if file.boffset >= DIRECT_BLOCK_POINTERS {
        var s2 := EnsureIndexBlock(s1, file.inumber);
        AllocLowestFirst(s1);
        SameBlocks(s1.blocks);
        LowestFirstTrans(s.blocks, s1.blocks, s2.blocks);
        var blk := s2.inodes[file.inumber].dataBlock;
        if ValidBlock(blk) {
          FillPointersLowest(s2, blk, 0, file.boffset - DIRECT_BLOCK_POINTERS);
          LowestFirstTrans(s.blocks, s2.blocks, FillPointers(s2, blk, 0, file.boffset - DIRECT_BLOCK_POINTERS).blocks);
        }
      }
    }
  }

  lemma {:induction false} WriteLowest(s: State, h: nat, buf: seq<byte>, total: nat)
    requires WellFormed(s) && h < MAX_OPEN_FILES && ValidInumber(s.files[h].inumber)
    ensures LowestFirst(s.blocks, WriteLoop(s, h, buf, total).0.blocks)
    decreases |buf|
  {
    hide LowestFirst, InodeUpdate;
    if buf == [] {
      SameBlocks(s.blocks);
    } else {
      var (s1, p) := InodeUpdate(s, h);
      UpdateLowest(s, h);
      if p.Address? {
        var aux := WriteStep(|buf|, s.files[h].offset);
        var s2 := PutBytes(s1, h, p.at, buf[..aux]);
        WriteLowest(s2, h, buf[aux..], total);
        LowestFirstTrans(s.blocks, s1.blocks, WriteLoop(s2, h, buf[aux..], total).0.blocks);
      }
    }
  }

  /** Truncation takes no block. */
  lemma {:induction false} FreeDirectTakesNone(s: State, f: nat, i: nat)
    requires WellFormed(s) && f < INODE_TABLE_SIZE && i <= DIRECT_BLOCK_POINTERS
    ensures forall b :: 0 <= b < DATA_BLOCKS && FreeDirect(s, f, i).0.blocks[b] == TAKEN ==> s.blocks[b] == TAKEN
    decreases DIRECT_BLOCK_POINTERS - i
  {
    if i < DIRECT_BLOCK_POINTERS {
      var b := s.inodes[f].direct[i];
      FreeDirectTakesNone(if b != -1 && DataBlockFree(s, b).1 then DataBlockFree(s, b).0 else s, f, i + 1);
    }
  }

  lemma {:induction false} FreePointersTakesNone(s: State, blk: nat, j: nat)
    requires WellFormed(s) && blk < DATA_BLOCKS && j <= MAX_BLOCK_POINTERS
    ensures forall b :: 0 <= b < DATA_BLOCKS && FreePointers(s, blk, j).0.blocks[b] == TAKEN ==> s.blocks[b] == TAKEN
    decreases MAX_BLOCK_POINTERS - j
  {
    if j < MAX_BLOCK_POINTERS {
      var b := ReadInt(s.data, PointerAt(blk, j));
      FreePointersTakesNone(if b != -1 && DataBlockFree(s, b).1 then DataBlockFree(s, b).0 else s, blk, j + 1);
    }
  }

  lemma TruncateStaysBelow(s: State, f: nat, flags: Flags, m: int)
    requires WellFormed(s) && f < INODE_TABLE_SIZE && Below(s.blocks, m)
    ensures Below(OpenExisting(s, f, flags).0.blocks, m)
  {
    hide FreeDirect, FreePointers;
    FreeDirectTakesNone(s, f, 0);
    var s1 := FreeDirect(s, f, 0).0;
    var blk := s.inodes[f].dataBlock;
    if ValidBlock(blk) {
      FreePointersTakesNone(s1, blk, 0);
    }
  }

  lemma {:induction false} ReadLowest(s: State, h: nat, dst: seq<byte>, at: nat, toRead: nat, total: nat)
    requires WellFormed(s) && h < MAX_OPEN_FILES && at + toRead <= |dst|
    ensures LowestFirst(s.blocks, ReadLoop(s, h, dst, at, toRead, total).0.blocks)
    decreases toRead
  {
    hide LowestFirst, InodeUpdate;
    if toRead == 0 {
      SameBlocks(s.blocks);
    } else {
      var (s1, p) := InodeUpdate(s, h);
      UpdateLowest(s, h);
      if p.Address? && p.at + toRead <= DATA_SIZE {
        var aux := ReadStep(toRead, s.files[h].offset);
        var dst1 := Splice(dst, at, s1.data[p.at..p.at + toRead]);
        ReadLowest(Advance(s1, h, aux), h, dst1, at + aux, toRead - aux, total);
        LowestFirstTrans(s.blocks, s1.blocks,
                         ReadLoop(Advance(s1, h, aux), h, dst1, at + aux, toRead - aux, total).0.blocks);
      }
    }
  }
}
