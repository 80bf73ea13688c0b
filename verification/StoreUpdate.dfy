/**
 inode_update as a whole: it keeps the ledger exact whether or not blocks run
 out, and it yields the address of the handle's position exactly when enough
 blocks are free.
 */
module StoreUpdate {
  import opened Memory
  import opened Directory
  import opened StoreModel
  import opened StoreOwnership

  /** The count reached by filling pointers up to `target` with `free` blocks available. */
  function Filled(count: nat, target: int, free: nat): (r: nat)
    ensures r >= count
    ensures r == count || r <= target
  {
    if count >= target then count
    else if count + free < target then count + free
    else target
  }

  /** How many blocks must be allocated before the first t blocks of inode f are mapped. */
  function Missing(s: State, w: Ledger, f: nat, t: int): (n: nat)
    requires WellFormed(s) && f < INODE_TABLE_SIZE && |w.count| == INODE_TABLE_SIZE
  {
    (if t > w.count[f] then t - w.count[f] else 0)
    + (if t > DIRECT_BLOCK_POINTERS && s.inodes[f].dataBlock == -1 then 1 else 0)
  }

  /** How many blocks inode f owns. */
  function Used(s: State, w: Ledger, f: nat): (n: nat)
    requires WellFormed(s) && f < INODE_TABLE_SIZE && |w.count| == INODE_TABLE_SIZE
  {
    w.count[f] + (if s.inodes[f].dataBlock == -1 then 0 else 1)
  }

  /** Blocks move between the free ones and those of file f. */
  ghost predicate Balanced(s: State, w: Ledger, s': State, w': Ledger, f: nat)
    requires WellFormed(s) && WellFormed(s') && f < INODE_TABLE_SIZE && |w.count| == |w'.count| == INODE_TABLE_SIZE
  {
    FreeCount(s'.blocks) + Used(s', w', f) == FreeCount(s.blocks) + Used(s, w, f)
  }

  lemma FilledStep(count: nat, target: int, free: nat)
    requires count < target && free > 0
    ensures Filled(count, target, free) == Filled(count + 1, target, free - 1)
  {
  }

  /** (s, w) is exact and was reached from (s0, w0) by mapping blocks of file f only. */
  ghost predicate Reached(s0: State, w0: Ledger, s: State, w: Ledger, f: int) {
    && WellFormed(s0) && |w0.owner| == DATA_BLOCKS && |w0.count| == INODE_TABLE_SIZE
    && WellFormed(s) && |w.owner| == DATA_BLOCKS && |w.count| == INODE_TABLE_SIZE
    && Inv(s, w) && LiveFile(s, f) && Extends(s0, w0, s, w, f)
  }

  /** A data pointer is set exactly when it is one of the counted ones. */
  lemma CountedSlot(s0: State, w0: Ledger, s: State, w: Ledger, f: int, i: nat)
    requires Reached(s0, w0, s, w, f) && i < FILE_BLOCKS
    ensures Ptr(s, f, i) != -1 <==> i < w.count[f]
  {
  }

  /** How the number of mapped blocks and the index block hang together. */
  lemma CountFacts(s0: State, w0: Ledger, s: State, w: Ledger, f: int)
    requires Reached(s0, w0, s, w, f)
    ensures w.count[f] <= FILE_BLOCKS
    ensures if s.inodes[f].dataBlock == -1 then w.count[f] <= DIRECT_BLOCK_POINTERS
            else w.count[f] >= DIRECT_BLOCK_POINTERS && ValidBlock(s.inodes[f].dataBlock)
    ensures forall i :: 0 <= i < w.count[f] ==> ValidBlock(Ptr(s, f, i))
  {
    if s.inodes[f].dataBlock != -1 {
      IndexBlockOwner(s, w, f);
    }
  }

  lemma ReachedRefl(s: State, w: Ledger, f: int)
    requires Inv(s, w) && LiveFile(s, f)
    ensures Reached(s, w, s, w, f)
  {
  }

  lemma ReachedTrans(s0: State, w0: Ledger, s: State, w: Ledger, s': State, w': Ledger, f: int)
    requires Reached(s0, w0, s, w, f) && Inv(s', w') && Extends(s, w, s', w', f)
    ensures Reached(s0, w0, s', w', f)
  {
    forall b | 0 <= b < DATA_BLOCKS && DataSlot(w0.owner[b])
      ensures BlockOf(s'.data, b) == BlockOf(s0.data, b)
    {
      assert w.owner[b] == w0.owner[b];
    }
  }

  /** One round of the loop over the direct pointers, at a pointer that is not set. */
  lemma DirectStep(s0: State, w0: Ledger, s: State, w: Ledger, f: nat, i: nat) returns (w': Ledger)
    requires Reached(s0, w0, s, w, f) && i < DIRECT_BLOCK_POINTERS && s.inodes[f].direct[i] == -1
    requires i <= w.count[f] || FreeCount(s.blocks) == 0
    ensures var (s1, b) := DataBlockAlloc(s);
            var s' := SetDirect(s1, f, i, b);
            && Reached(s0, w0, s', w', f) && s'.inodes[f].dataBlock == s.inodes[f].dataBlock
            && if FreeCount(s.blocks) == 0 then s' == s && w' == w
               else w'.count[f] == w.count[f] + 1 == i + 1 && FreeCount(s'.blocks) == FreeCount(s.blocks) - 1
  {
    var (s1, b) := DataBlockAlloc(s);
    assert Ptr(s, f, i) == -1;
    AllocCounts(s);
    if b == -1 {
      assert s.inodes[f].direct[i := -1] == s.inodes[f].direct;
      assert SetDirect(s1, f, i, b) == s;
      w' := w;
    } else {
      w' := Assign(w, b, f, i);
      AssignDirect(s, w, f);
      ReachedTrans(s0, w0, s, w, SetDirect(s1, f, i, b), w', f);
    }
  }

  lemma {:induction false} FillDirectEffect(s0: State, w0: Ledger, s: State, w: Ledger, f: nat, i: nat, last: int)
    returns (w': Ledger)
    requires Reached(s0, w0, s, w, f) && i <= DIRECT_BLOCK_POINTERS
    requires i <= w.count[f] || FreeCount(s.blocks) == 0
    ensures Reached(s0, w0, FillDirect(s, f, i, last), w', f)
    ensures FillDirect(s, f, i, last).inodes[f].dataBlock == s.inodes[f].dataBlock
    ensures w'.count[f] ==
            Filled(w.count[f], if last < DIRECT_BLOCK_POINTERS then last + 1 else DIRECT_BLOCK_POINTERS, FreeCount(s.blocks))
    ensures FreeCount(FillDirect(s, f, i, last).blocks) == FreeCount(s.blocks) - (w'.count[f] - w.count[f])
    decreases DIRECT_BLOCK_POINTERS - i
  {
    hide Inv, Extends, FreeCount, FirstFree;
    if i > last || i >= DIRECT_BLOCK_POINTERS {
      assert FillDirect(s, f, i, last) == s;
      w' := w;
    } else if s.inodes[f].direct[i] != -1 {
      assert FillDirect(s, f, i, last) == FillDirect(s, f, i + 1, last);
      CountedSlot(s0, w0, s, w, f, i);
      w' := FillDirectEffect(s0, w0, s, w, f, i + 1, last);
    } else {
      var w2 := DirectStep(s0, w0, s, w, f, i);
      var s2 := SetDirect(DataBlockAlloc(s).0, f, i, DataBlockAlloc(s).1);
      assert FillDirect(s, f, i, last) == FillDirect(s2, f, i + 1, last);
      if FreeCount(s.blocks) > 0 {
        FilledStep(w.count[f], if last < DIRECT_BLOCK_POINTERS then last + 1 else DIRECT_BLOCK_POINTERS,
                   FreeCount(s.blocks));
      }
      w' := FillDirectEffect(s0, w0, s2, w2, f, i + 1, last);
    }
  }

  /** One round of the loop over the index block, at a pointer that is not set. */
  lemma PointerStep(s0: State, w0: Ledger, s: State, w: Ledger, f: nat, blk: nat, j: nat) returns (w': Ledger)
    requires Reached(s0, w0, s, w, f) && j < MAX_BLOCK_POINTERS && blk < DATA_BLOCKS
    requires s.inodes[f].dataBlock == blk && ReadInt(s.data, PointerAt(blk, j)) == -1
    requires DIRECT_BLOCK_POINTERS + j <= w.count[f] || FreeCount(s.blocks) == 0
    ensures var (s1, b) := DataBlockAlloc(s);
            && IsInt(b)
            && var s' := SetPointer(s1, blk, j, b);
            && Reached(s0, w0, s', w', f) && s'.inodes[f].dataBlock == blk
            && if FreeCount(s.blocks) == 0 then s' == s && w' == w
               else w'.count[f] == w.count[f] + 1 == DIRECT_BLOCK_POINTERS + j + 1
                    && FreeCount(s'.blocks) == FreeCount(s.blocks) - 1
  {
    var (s1, b) := DataBlockAlloc(s);
    assert Ptr(s, f, DIRECT_BLOCK_POINTERS + j) == -1;
    AllocCounts(s);
    CountedSlot(s0, w0, s, w, f, DIRECT_BLOCK_POINTERS + j);
    CountFacts(s0, w0, s, w, f);
    hide Owners, Shapes, Root, Extends, FreeCount, Ptr, WriteInt, ReadInt;
    if b == -1 {
      RewriteMinusOne(s.data, PointerAt(blk, j));
      assert SetPointer(s1, blk, j, b) == s;
      w' := w;
    } else {
      w' := Assign(w, b, f, DIRECT_BLOCK_POINTERS + j);
      AssignPointer(s, w, f);
      ReachedTrans(s0, w0, s, w, SetPointer(s1, blk, j, b), w', f);
    }
  }

  lemma {:induction false} FillPointersEffect(
      s0: State, w0: Ledger, s: State, w: Ledger, f: nat, blk: nat, j: nat, last: int)
    returns (w': Ledger)
    requires Reached(s0, w0, s, w, f) && s.inodes[f].dataBlock == blk && blk < DATA_BLOCKS
    requires j <= MAX_BLOCK_POINTERS && last < MAX_BLOCK_POINTERS
    requires DIRECT_BLOCK_POINTERS + j <= w.count[f] || FreeCount(s.blocks) == 0
    ensures Reached(s0, w0, FillPointers(s, blk, j, last), w', f)
    ensures FillPointers(s, blk, j, last).inodes[f].dataBlock == blk
    ensures w'.count[f] == Filled(w.count[f], DIRECT_BLOCK_POINTERS + last + 1, FreeCount(s.blocks))
    ensures FreeCount(FillPointers(s, blk, j, last).blocks) == FreeCount(s.blocks) - (w'.count[f] - w.count[f])
    decreases MAX_BLOCK_POINTERS - j
  {
    hide Inv, Extends, ReadInt, FreeCount, FirstFree, WriteInt;
    if j > last || j >= MAX_BLOCK_POINTERS {
      assert FillPointers(s, blk, j, last) == s;
      w' := w;
    } else if ReadInt(s.data, PointerAt(blk, j)) != -1 {
      assert FillPointers(s, blk, j, last) == FillPointers(s, blk, j + 1, last);
      CountedSlot(s0, w0, s, w, f, DIRECT_BLOCK_POINTERS + j);
      w' := FillPointersEffect(s0, w0, s, w, f, blk, j + 1, last);
    } else {
      var w2 := PointerStep(s0, w0, s, w, f, blk, j);
      var s2 := SetPointer(DataBlockAlloc(s).0, blk, j, DataBlockAlloc(s).1);
      assert FillPointers(s, blk, j, last) == FillPointers(s2, blk, j + 1, last);
      if FreeCount(s.blocks) > 0 {
        FilledStep(w.count[f], DIRECT_BLOCK_POINTERS + last + 1, FreeCount(s.blocks));
      }
      w' := FillPointersEffect(s0, w0, s2, w2, f, blk, j + 1, last);
    }
  }

  /** The index block is there afterwards unless no block was free. */
  lemma EnsureIndexBlockEffect(s0: State, w0: Ledger, s: State, w: Ledger, f: nat) returns (w': Ledger)
    requires Reached(s0, w0, s, w, f)
    requires w.count[f] >= DIRECT_BLOCK_POINTERS || FreeCount(s.blocks) == 0
    ensures var s' := EnsureIndexBlock(s, f);
            && Reached(s0, w0, s', w', f) && w'.count == w.count
            && (s'.inodes[f].dataBlock == -1 <==> s.inodes[f].dataBlock == -1 && FreeCount(s.blocks) == 0)
            && (s'.inodes[f].dataBlock != -1 ==> ValidBlock(s'.inodes[f].dataBlock))
            && FreeCount(s'.blocks) == FreeCount(s.blocks)
                 - (if s.inodes[f].dataBlock == -1 && FreeCount(s.blocks) > 0 then 1 else 0)
  {
    AllocCounts(s);
    if s.inodes[f].dataBlock != -1 {
      IndexBlockOwner(s, w, f);
      w' := w;
    } else if FreeCount(s.blocks) == 0 {
      assert EnsureIndexBlock(s, f) == s;
      w' := w;
    } else {
      w' := Assign(w, EnsureIndexBlock(s, f).inodes[f].dataBlock, f, INDEX_SLOT);
      AssignIndexBlock(s, w, f);
      ReachedTrans(s0, w0, s, w, EnsureIndexBlock(s, f), w', f);
    }
  }

  ghost predicate Updated(s: State, w: Ledger, s': State, w': Ledger, h: nat, p: Position)
    requires Inv(s, w) && WellFormed(s') && h < MAX_OPEN_FILES && LiveFile(s, s.files[h].inumber)
    requires 0 <= s.files[h].boffset < FILE_BLOCKS
  {
    var file := s.files[h];
    var f := file.inumber;
    var t := file.boffset + 1;
    var free := FreeCount(s.blocks);
    && Reached(s, w, s', w', f) && Balanced(s, w, s', w', f)
    && (free >= Missing(s, w, f, t) ==>
          && ValidBlock(Ptr(s', f, file.boffset))
          && p == Address(Ptr(s', f, file.boffset) * BLOCK_SIZE + file.offset)
          && w'.count[f] == (if t > w.count[f] then t else w.count[f])
          && (s'.inodes[f].dataBlock == -1 <==> s.inodes[f].dataBlock == -1 && t <= DIRECT_BLOCK_POINTERS)
          && FreeCount(s'.blocks) == free - Missing(s, w, f, t))
    && (free < Missing(s, w, f, t) ==>
          && w'.count[f] < t
          && (s'.inodes[f].dataBlock == -1 <==>
                s.inodes[f].dataBlock == -1 && (t <= DIRECT_BLOCK_POINTERS || w.count[f] + free <= DIRECT_BLOCK_POINTERS))
          && p == (if (t > DIRECT_BLOCK_POINTERS && s'.inodes[f].dataBlock == -1) || file.offset != 0 then Wild else Null))
  }

  /** The direct part: the position lies in one of the first ten blocks. */
  lemma DirectUpdate(s: State, w: Ledger, h: nat) returns (w': Ledger)
    requires Inv(s, w) && h < MAX_OPEN_FILES && LiveFile(s, s.files[h].inumber)
    requires 0 <= s.files[h].boffset < DIRECT_BLOCK_POINTERS
    ensures Updated(s, w, InodeUpdate(s, h).0, w', h, InodeUpdate(s, h).1)
  {
    var f := s.files[h].inumber;
    var i := s.files[h].boffset;
    ReachedRefl(s, w, f);
    w' := FillDirectEffect(s, w, s, w, f, 0, i);
    var s1 := FillDirect(s, f, 0, i);
    assert Ptr(s1, f, i) == s1.inodes[f].direct[i];
    assert Ptr(s1, f, i) != -1 <==> i < w'.count[f];
  }

  /** Up to the point where inode_update has the index block: all ten direct pointers come first. */
  lemma IndexStage(s: State, w: Ledger, f: nat, i: nat) returns (w2: Ledger)
    requires WellFormed(s) && Inv(s, w) && LiveFile(s, f) && DIRECT_BLOCK_POINTERS <= i
    ensures var s2 := EnsureIndexBlock(FillDirect(s, f, 0, i), f);
            var free := FreeCount(s.blocks);
            && Reached(s, w, s2, w2, f)
            && w2.count[f] == Filled(w.count[f], DIRECT_BLOCK_POINTERS, free)
            && (s2.inodes[f].dataBlock == -1 <==>
                  s.inodes[f].dataBlock == -1 && w.count[f] + free <= DIRECT_BLOCK_POINTERS)
            && FreeCount(s2.blocks) == free - (w2.count[f] - w.count[f])
                 - (if s.inodes[f].dataBlock == -1 && w.count[f] + free > DIRECT_BLOCK_POINTERS then 1 else 0)
  {
    hide Inv, Extends;
    ReachedRefl(s, w, f);
    CountFacts(s, w, s, w, f);
    var w1 := FillDirectEffect(s, w, s, w, f, 0, i);
    w2 := EnsureIndexBlockEffect(s, w, FillDirect(s, f, 0, i), w1, f);
  }

  /** The numbers behind the indirect part: counts and free blocks before and after each stage. */
  lemma IndirectCounts(count: nat, index: bool, free: nat, t: nat,
                       count2: nat, index2: bool, free2: nat, count3: nat, free3: nat)
    requires DIRECT_BLOCK_POINTERS < t
    requires if index then count >= DIRECT_BLOCK_POINTERS else count <= DIRECT_BLOCK_POINTERS
    requires count2 == Filled(count, DIRECT_BLOCK_POINTERS, free)
    requires index2 <==> index || count + free > DIRECT_BLOCK_POINTERS
    requires free2 == free - (count2 - count) - (if !index && count + free > DIRECT_BLOCK_POINTERS then 1 else 0)
    requires count3 == (if index2 then Filled(count2, t, free2) else count2)
    requires free3 == free2 - (count3 - count2)
    ensures var missing := (if t > count then t - count else 0) + (if index then 0 else 1);
            if free >= missing then index2 && count3 == (if t > count then t else count) && free3 == free - missing
            else count3 < t
    ensures free3 + count3 + (if index2 then 1 else 0) == free + count + (if index then 1 else 0)
  {
  }

  /** From the index block to the pointer at position j in it. */
  lemma PointerStage(s: State, w: Ledger, s2: State, w2: Ledger, f: nat, blk: nat, j: nat) returns (w': Ledger)
    requires Reached(s, w, s2, w2, f) && s2.inodes[f].dataBlock == blk && blk < DATA_BLOCKS && j < MAX_BLOCK_POINTERS
    requires w2.count[f] >= DIRECT_BLOCK_POINTERS
    ensures var s3 := FillPointers(s2, blk, 0, j);
            var i := DIRECT_BLOCK_POINTERS + j;
            && Reached(s, w, s3, w', f)
            && w'.count[f] == Filled(w2.count[f], i + 1, FreeCount(s2.blocks))
            && FreeCount(s3.blocks) == FreeCount(s2.blocks) - (w'.count[f] - w2.count[f])
            && s3.inodes[f].dataBlock == blk
            && Ptr(s3, f, i) == ReadInt(s3.data, PointerAt(blk, j))
            && (if i < w'.count[f] then ValidBlock(Ptr(s3, f, i)) else Ptr(s3, f, i) == -1)
  {
    hide Inv, Extends;
    w' := FillPointersEffect(s, w, s2, w2, f, blk, 0, j);
    var s3 := FillPointers(s2, blk, 0, j);
    CountFacts(s, w, s3, w', f);
    CountedSlot(s, w, s3, w', f, DIRECT_BLOCK_POINTERS + j);
  }

  /** The indirect part: the position lies in a block reached through the index block. */
  lemma IndirectUpdate(s: State, w: Ledger, h: nat) returns (w': Ledger)
    requires WellFormed(s) && Inv(s, w) && h < MAX_OPEN_FILES && LiveFile(s, s.files[h].inumber)
    requires DIRECT_BLOCK_POINTERS <= s.files[h].boffset < FILE_BLOCKS
    ensures Updated(s, w, InodeUpdate(s, h).0, w', h, InodeUpdate(s, h).1)
  {
    hide Inv, Extends, FillDirect, FillPointers, EnsureIndexBlock, Ptr, Filled, FreeCount;
    var f := s.files[h].inumber;
    var i := s.files[h].boffset;
    ReachedRefl(s, w, f);
    CountFacts(s, w, s, w, f);
    var w2 := IndexStage(s, w, f, i);
    var s2 := EnsureIndexBlock(FillDirect(s, f, 0, i), f);
    CountFacts(s, w, s2, w2, f);
    var blk := s2.inodes[f].dataBlock;
    var free := FreeCount(s.blocks);
    if blk == -1 {
      IndirectCounts(w.count[f], s.inodes[f].dataBlock != -1, free, i + 1,
                     w2.count[f], false, FreeCount(s2.blocks), w2.count[f], FreeCount(s2.blocks));
      w' := w2;
    } else {
      w' := PointerStage(s, w, s2, w2, f, blk, i - DIRECT_BLOCK_POINTERS);
      var s3 := FillPointers(s2, blk, 0, i - DIRECT_BLOCK_POINTERS);
      IndirectCounts(w.count[f], s.inodes[f].dataBlock != -1, free, i + 1,
                     w2.count[f], true, FreeCount(s2.blocks), w'.count[f], FreeCount(s3.blocks));
      assert InodeUpdate(s, h) == (s3, Locate(Ptr(s3, f, i), s.files[h].offset));
    }
  }

  /** inode_update at any position below 266 blocks. */
  lemma InodeUpdateEffect(s: State, w: Ledger, h: nat) returns (w': Ledger)
    requires Inv(s, w) && h < MAX_OPEN_FILES && LiveFile(s, s.files[h].inumber)
    requires 0 <= s.files[h].boffset < FILE_BLOCKS
    ensures Updated(s, w, InodeUpdate(s, h).0, w', h, InodeUpdate(s, h).1)
  {
    if s.files[h].boffset < DIRECT_BLOCK_POINTERS {
      w' := DirectUpdate(s, w, h);
    } else {
      w' := IndirectUpdate(s, w, h);
    }
  }
}
