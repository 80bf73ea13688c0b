/**
 Positions past the 266th block. The code has no check there: the block number
 comes from the bytes behind the index block.
 */
module StoreLimit {
  import opened Memory
  import opened Directory
  import opened StoreModel
  import opened StoreOwnership
  import opened StoreUpdate
  import opened StoreRead

  lemma {:induction false} FillDirectCapped(s: State, f: nat, i: nat, last: int)
    requires WellFormed(s) && f < INODE_TABLE_SIZE && last >= DIRECT_BLOCK_POINTERS
    ensures FillDirect(s, f, i, last) == FillDirect(s, f, i, DIRECT_BLOCK_POINTERS)
    decreases DIRECT_BLOCK_POINTERS - i
  {
    if i < DIRECT_BLOCK_POINTERS {
      var (s1, b) := DataBlockAlloc(s);
      FillDirectCapped(if s.inodes[f].direct[i] == -1 then SetDirect(s1, f, i, b) else s, f, i + 1, last);
    }
  }

  lemma {:induction false} FillPointersCapped(s: State, blk: nat, j: nat, last: int)
    requires WellFormed(s) && blk < DATA_BLOCKS && last >= MAX_BLOCK_POINTERS - 1
    ensures FillPointers(s, blk, j, last) == FillPointers(s, blk, j, MAX_BLOCK_POINTERS - 1)
    decreases MAX_BLOCK_POINTERS - j
  {
    if j < MAX_BLOCK_POINTERS {
      if ReadInt(s.data, PointerAt(blk, j)) == -1 {
        var (s1, b) := DataBlockAlloc(s);
        FillPointersCapped(SetPointer(s1, blk, j, b), blk, j + 1, last);
      } else {
        FillPointersCapped(s, blk, j + 1, last);
      }
    }
  }

  /** Where inode_update looks for the block number past the limit, and what it makes of it. */
  function Beyond(s: State, h: nat): Position
    requires WellFormed(s) && h < MAX_OPEN_FILES && ValidInumber(s.files[h].inumber) && s.files[h].boffset >= FILE_BLOCKS
  {
    var blk := s.inodes[s.files[h].inumber].dataBlock;
    if !ValidBlock(blk) then Wild
    else
      var at := PointerAt(blk, s.files[h].boffset - DIRECT_BLOCK_POINTERS);
      if at + 4 > DATA_SIZE then Wild else Locate(ReadInt(s.data, at), s.files[h].offset)
  }

  /**
   Past the last block inode_update first maps all 266 blocks, as far as free
   ones last. It then takes as a block number what lies behind the index block.
   */
  lemma PastTheLastBlock(s: State, w: Ledger, h: nat) returns (w': Ledger)
    requires WellFormed(s) && Inv(s, w) && h < MAX_OPEN_FILES && LiveFile(s, s.files[h].inumber)
    requires s.files[h].boffset >= FILE_BLOCKS
    ensures var (s', p) := InodeUpdate(s, h);
            var f := s.files[h].inumber;
            && Reached(s, w, s', w', f) && s'.files == s.files && p == Beyond(s', h)
            && (FreeCount(s.blocks) >= Missing(s, w, f, FILE_BLOCKS) ==>
                  w'.count[f] == FILE_BLOCKS && ValidBlock(s'.inodes[f].dataBlock))
  {
    hide Inv, Extends, FillDirect, FillPointers, EnsureIndexBlock, Ptr, FreeCount, Filled;
    var f := s.files[h].inumber;
    var i := s.files[h].boffset;
    var s1 := FillDirect(s, f, 0, i);
    var s2 := EnsureIndexBlock(s1, f);
    ReachedRefl(s, w, f);
    CountFacts(s, w, s, w, f);
    var w2 := IndexStage(s, w, f, i);
    CountFacts(s, w, s2, w2, f);
    var blk := s2.inodes[f].dataBlock;
    var free := FreeCount(s.blocks);
    if blk == -1 {
      IndirectCounts(w.count[f], s.inodes[f].dataBlock != -1, free, FILE_BLOCKS,
                     w2.count[f], false, FreeCount(s2.blocks), w2.count[f], FreeCount(s2.blocks));
      w' := w2;
    } else {
      FillPointersCapped(s2, blk, 0, i - DIRECT_BLOCK_POINTERS);
      w' := PointerStage(s, w, s2, w2, f, blk, MAX_BLOCK_POINTERS - 1);
      var s3 := FillPointers(s2, blk, 0, MAX_BLOCK_POINTERS - 1);
      CountFacts(s, w, s3, w', f);
      IndirectCounts(w.count[f], s.inodes[f].dataBlock != -1, free, FILE_BLOCKS,
                     w2.count[f], true, FreeCount(s2.blocks), w'.count[f], FreeCount(s3.blocks));
      assert InodeUpdate(s, h).0 == s3;
    }
  }

  /** On a full file inode_update maps nothing more. */
  lemma FullUpdate(s: State, w: Ledger, h: nat)
    requires Inv(s, w) && h < MAX_OPEN_FILES && LiveFile(s, s.files[h].inumber)
    requires |w.count| == INODE_TABLE_SIZE && w.count[s.files[h].inumber] == FILE_BLOCKS <= s.files[h].boffset
    ensures InodeUpdate(s, h) == (s, Beyond(s, h))
  {
    hide Owners, Shapes, Root, FillDirect, FillPointers;
    var f := s.files[h].inumber;
    var blk := s.inodes[f].dataBlock;
    MappedPointers(s, w, f, FILE_BLOCKS - 1);
    FillDirectNothing(s, f, 0, s.files[h].boffset);
    FillPointersNothing(s, blk, 0, s.files[h].boffset - DIRECT_BLOCK_POINTERS);
  }

  /**
   A write past the limit, of any length. When a block number is found behind
   the index block, the first chunk goes into that block, whoever owns it, no
   other block changes, and the write goes on from there with what is left; the
   last chunk is followed by the byte count. Otherwise the write fails or leaves
   the arrays.
   */
  lemma WritePastLimit(s: State, w: Ledger, h: nat, buf: seq<byte>) returns (w1: Ledger)
    requires WellFormed(s) && Inv(s, w) && h < MAX_OPEN_FILES && LiveFile(s, s.files[h].inumber)
    requires s.files[h].boffset >= FILE_BLOCKS && buf != []
    ensures var s1 := InodeUpdate(s, h).0;
            var (s', r) := TfsWrite(s, h, buf);
            var o := s.files[h].offset;
            var aux := WriteStep(|buf|, o);
            && Reached(s, w, s1, w1, s.files[h].inumber) && s1.files == s.files
            && match Beyond(s1, h)
               case Null => r == Failed && s' == s1
               case Wild => r == Fault && s' == s1
               case Address(at) =>
                 var b := (at - o) / BLOCK_SIZE;
                 && ValidBlock(b) && at == b * BLOCK_SIZE + o
                 && var s2 := PutBytes(s1, h, at, buf[..aux]);
                 && BlockOf(s2.data, b) == Splice(BlockOf(s1.data, b), o, buf[..aux])
                 && (forall c :: 0 <= c < DATA_BLOCKS && c != b ==> BlockOf(s2.data, c) == BlockOf(s1.data, c))
                 && s2.files[h].inumber == s.files[h].inumber && s2.files[h].boffset >= FILE_BLOCKS
                 && (s', r) == WriteLoop(s2, h, buf[aux..], |buf|)
                 && (aux == |buf| ==> s' == s2 && r == Done(|buf|))
  {
    hide Inv, Extends, InodeUpdate, FreeCount, Missing;
    w1 := PastTheLastBlock(s, w, h);
    var (s1, p) := InodeUpdate(s, h);
    var o := s.files[h].offset;
    if p.Address? {
      var b := (p.at - o) / BLOCK_SIZE;
      assert b == ReadInt(s1.data, PointerAt(s1.inodes[s.files[h].inumber].dataBlock, s.files[h].boffset - DIRECT_BLOCK_POINTERS));
      FirstChunk(s, h, buf);
      SpliceInBlock(s1.data, b, o, buf[..WriteStep(|buf|, o)]);
    }
  }

  /** The first round of a write, and the rest of it. */
  lemma FirstChunk(s: State, h: nat, buf: seq<byte>)
    requires WellFormed(s) && h < MAX_OPEN_FILES && ValidInumber(s.files[h].inumber)
    requires buf != [] && InodeUpdate(s, h).1.Address?
    ensures var (s1, p) := InodeUpdate(s, h);
            var aux := WriteStep(|buf|, s.files[h].offset);
            var s2 := PutBytes(s1, h, p.at, buf[..aux]);
            && TfsWrite(s, h, buf) == WriteLoop(s2, h, buf[aux..], |buf|)
            && (aux == |buf| ==> TfsWrite(s, h, buf) == (s2, Done(|buf|)))
  {
    hide InodeUpdate, PutBytes;
    var (s1, p) := InodeUpdate(s, h);
    var aux := WriteStep(|buf|, s.files[h].offset);
    if aux == |buf| {
      assert WriteLoop(PutBytes(s1, h, p.at, buf[..aux]), h, [], |buf|).1 == Done(|buf|);
    }
  }

  /** A write that stays in one block is one round. */
  lemma OneChunk(s: State, h: nat, buf: seq<byte>)
    requires WellFormed(s) && h < MAX_OPEN_FILES && ValidInumber(s.files[h].inumber)
    requires buf != [] && s.files[h].offset + |buf| <= BLOCK_SIZE && InodeUpdate(s, h).1.Address?
    ensures TfsWrite(s, h, buf) == (PutBytes(InodeUpdate(s, h).0, h, InodeUpdate(s, h).1.at, buf), Done(|buf|))
  {
    hide InodeUpdate, PutBytes, WriteLoop;
    assert WriteStep(|buf|, s.files[h].offset) == |buf| && buf[..|buf|] == buf;
    FirstChunk(s, h, buf);
  }

  lemma SpliceInBlock(data: seq<byte>, b: nat, o: nat, src: seq<byte>)
    requires |data| == DATA_SIZE && ValidBlock(b) && o + |src| <= BLOCK_SIZE
    ensures BlockOf(Splice(data, b * BLOCK_SIZE + o, src), b) == Splice(BlockOf(data, b), o, src)
    ensures forall c :: 0 <= c < DATA_BLOCKS && c != b ==> BlockOf(Splice(data, b * BLOCK_SIZE + o, src), c) == BlockOf(data, c)
  {
    forall c | 0 <= c < DATA_BLOCKS && c != b
      ensures BlockOf(Splice(data, b * BLOCK_SIZE + o, src), c) == BlockOf(data, c)
    {
      SpliceOtherBlock(data, b * BLOCK_SIZE + o, src, b, c);
    }
  }
}
