/**
 tfs_write against the flat view of a file. A file is the sequence of bytes of
 its mapped blocks; a write through the two-level pointer structure replaces
 exactly the bytes from the handle's position on.
 */
module StoreWrite {
  import opened Memory
  import opened Directory
  import opened StoreModel
  import opened StoreOwnership
  import opened StoreUpdate

  const FILE_BYTES: nat := FILE_BLOCKS * BLOCK_SIZE

  /** The bytes of block i of file f, through its pointer. */
  function FileBlock(s: State, f: int, i: int): (r: seq<byte>)
    requires WellFormed(s) && ValidInumber(f) && 0 <= i < FILE_BLOCKS
    ensures r == [] || |r| == BLOCK_SIZE
  {
    if ValidBlock(Ptr(s, f, i)) then BlockOf(s.data, Ptr(s, f, i)) else []
  }

  /** Byte p of file f. */
  function FileByte(s: State, f: int, p: int): byte
    requires WellFormed(s) && ValidInumber(f) && 0 <= p < FILE_BYTES
  {
    var blk := FileBlock(s, f, p / BLOCK_SIZE);
    if blk == [] then 0 else blk[p % BLOCK_SIZE]
  }

  /** A handle's position as one number. */
  function Pos(file: OpenFile): int {
    file.boffset * BLOCK_SIZE + file.offset
  }

  /** How many blocks a file needs to hold bytes [pos, pos + n). */
  function BlocksFor(pos: int, n: nat): int {
    if n == 0 then 0 else (pos + n - 1) / BLOCK_SIZE + 1
  }

  function Max(a: int, b: int): int { if a > b then a else b }

  /** Every mapped block of every live file, block (f, e) excepted, keeps its bytes; so does the root directory. */
  ghost predicate KeepsBlocks(s: State, w: Ledger, s': State, f: int, e: int)
    requires WellFormed(s) && WellFormed(s') && |w.count| == INODE_TABLE_SIZE
  {
    && (forall g, i :: LiveFile(s, g) && 0 <= i < w.count[g] <= FILE_BLOCKS && !(g == f && i == e) ==>
          FileBlock(s', g, i) == FileBlock(s, g, i))
    && s'.inodes[ROOT_DIR_INUM] == s.inodes[ROOT_DIR_INUM]
    && (ValidBlock(s.inodes[ROOT_DIR_INUM].dataBlock) ==>
          BlockOf(s'.data, s.inodes[ROOT_DIR_INUM].dataBlock) == BlockOf(s.data, s.inodes[ROOT_DIR_INUM].dataBlock))
  }

  /** Only file f and handle h may differ. */
  ghost predicate OnlyFile(s: State, s': State, f: int, h: int)
    requires WellFormed(s) && WellFormed(s') && ValidInumber(f) && ValidHandle(h)
  {
    && s'.inodeTs == s.inodeTs && s'.fileTs == s.fileTs
    && s'.files == s.files[h := s'.files[h]] && s'.files[h].inumber == s.files[h].inumber
    && s'.inodes == s.inodes[f := s'.inodes[f]] && s'.inodes[f].kind == s.inodes[f].kind
  }

  /** inode_update changes no mapped byte. */
  lemma ReachedKeepsBlocks(s: State, w: Ledger, s': State, w': Ledger, f: int)
    requires Inv(s, w) && Reached(s, w, s', w', f)
    ensures KeepsBlocks(s, w, s', f, -1)
  {
    forall g, i | LiveFile(s, g) && 0 <= i < w.count[g] <= FILE_BLOCKS
      ensures FileBlock(s', g, i) == FileBlock(s, g, i)
    {
      var b := Ptr(s, g, i);
      assert w.owner[b] == Slot(g, i);
      assert w'.owner[b] == Slot(g, i);
      assert Ptr(s', g, i) == b;
    }
    var r := s.inodes[ROOT_DIR_INUM].dataBlock;
    IndexBlockOwner(s, w, ROOT_DIR_INUM);
    assert DataSlot(w.owner[r]);
  }

  /** A copy into data block b, owned by block i of file f, leaves every slot of every live inode alone. */
  lemma DataCopyKeepsSlots(s: State, w: Ledger, s': State, f: int, i: nat, b: nat, at: nat, src: seq<byte>)
    requires Inv(s, w) && WellFormed(s') && i < FILE_BLOCKS && b < DATA_BLOCKS && w.owner[b] == Slot(f, i)
    requires f != ROOT_DIR_INUM
    requires b * BLOCK_SIZE <= at && at + |src| <= (b + 1) * BLOCK_SIZE
    requires s'.data == Splice(s.data, at, src)
    requires forall g :: 0 <= g < INODE_TABLE_SIZE ==>
               && s'.inodes[g].kind == s.inodes[g].kind && s'.inodes[g].dataBlock == s.inodes[g].dataBlock
               && s'.inodes[g].direct == s.inodes[g].direct
    ensures forall c :: 0 <= c < DATA_BLOCKS && c != b ==> BlockOf(s'.data, c) == BlockOf(s.data, c)
    ensures forall g, j :: Live(s, g) && 0 <= j <= INDEX_SLOT ==> Ptr(s', g, j) == Ptr(s, g, j)
  {
    forall c | 0 <= c < DATA_BLOCKS && c != b
      ensures BlockOf(s'.data, c) == BlockOf(s.data, c)
    {
      SpliceOtherBlock(s.data, at, src, b, c);
    }
    forall g, j | Live(s, g) && 0 <= j <= INDEX_SLOT
      ensures Ptr(s', g, j) == Ptr(s, g, j)
    {
      if s.inodes[g].dataBlock != -1 {
        IndexBlockOwner(s, w, g);
      }
      PtrFrame(s, s', g);
    }
  }

  /** The copy, the move of the handle and the growth of i_size: the ledger stays exact. */
  lemma PutBytesKeepsInv(s: State, w: Ledger, h: nat, at: nat, chunk: seq<byte>)
    requires Inv(s, w) && h < MAX_OPEN_FILES && LiveFile(s, s.files[h].inumber)
    requires 0 <= s.files[h].boffset < w.count[s.files[h].inumber]
    requires at == Ptr(s, s.files[h].inumber, s.files[h].boffset) * BLOCK_SIZE + s.files[h].offset
    requires s.files[h].offset + |chunk| <= BLOCK_SIZE && at + |chunk| <= DATA_SIZE
    ensures var s' := PutBytes(s, h, at, chunk);
            && Inv(s', w) && OnlyFile(s, s', s.files[h].inumber, h)
            && (forall g, j :: Live(s, g) && 0 <= j <= INDEX_SLOT ==> Ptr(s', g, j) == Ptr(s, g, j))
            && (forall c :: 0 <= c < DATA_BLOCKS && c != Ptr(s, s.files[h].inumber, s.files[h].boffset) ==>
                  BlockOf(s'.data, c) == BlockOf(s.data, c))
  {
    var f := s.files[h].inumber;
    var i := s.files[h].boffset;
    var b := Ptr(s, f, i);
    var s' := PutBytes(s, h, at, chunk);
    assert w.owner[b] == Slot(f, i);
    DataCopyKeepsSlots(s, w, s', f, i, b, at, chunk);
    assert Owners(s', w);
    assert Shapes(s', w);
    var r := s.inodes[ROOT_DIR_INUM].dataBlock;
    IndexBlockOwner(s, w, ROOT_DIR_INUM);
    assert BlockOf(s'.data, r) == BlockOf(s.data, r);
    forall p | r * BLOCK_SIZE <= p < (r + 1) * BLOCK_SIZE
      ensures s.data[p] == s'.data[p]
    {
      assert s.data[p] == BlockOf(s.data, r)[p - r * BLOCK_SIZE];
      assert s'.data[p] == BlockOf(s'.data, r)[p - r * BLOCK_SIZE];
    }
    HoldsFrame(s.data, s'.data, r * BLOCK_SIZE, w.bindings);
  }

  /** The copy replaces bytes of one block of one file. */
  lemma PutBytesContent(s: State, w: Ledger, h: nat, at: nat, chunk: seq<byte>)
    requires Inv(s, w) && h < MAX_OPEN_FILES && LiveFile(s, s.files[h].inumber)
    requires 0 <= s.files[h].boffset < w.count[s.files[h].inumber]
    requires at == Ptr(s, s.files[h].inumber, s.files[h].boffset) * BLOCK_SIZE + s.files[h].offset
    requires s.files[h].offset + |chunk| <= BLOCK_SIZE && at + |chunk| <= DATA_SIZE
    ensures var s' := PutBytes(s, h, at, chunk);
            var f := s.files[h].inumber;
            var i := s.files[h].boffset;
            && KeepsBlocks(s, w, s', f, i)
            && |FileBlock(s, f, i)| == BLOCK_SIZE
            && FileBlock(s', f, i) == Splice(FileBlock(s, f, i), s.files[h].offset, chunk)
  {
    var f := s.files[h].inumber;
    var i := s.files[h].boffset;
    var b := Ptr(s, f, i);
    var s' := PutBytes(s, h, at, chunk);
    assert w.owner[b] == Slot(f, i);
    PutBytesKeepsInv(s, w, h, at, chunk);
    forall g, j | LiveFile(s, g) && 0 <= j < w.count[g] <= FILE_BLOCKS && !(g == f && j == i)
      ensures FileBlock(s', g, j) == FileBlock(s, g, j)
    {
      assert w.owner[Ptr(s, g, j)] == Slot(g, j);
    }
    IndexBlockOwner(s, w, ROOT_DIR_INUM);
    assert BlockOf(s'.data, b) == Splice(BlockOf(s.data, b), s.files[h].offset, chunk);
  }

  // ---------------------------------------------------------------------------
  // One round of the loop of tfs_write
  // ---------------------------------------------------------------------------

  /** File f holds the chunk at the handle's position; every other mapped byte is the old one. */
  ghost predicate Round(s: State, w: Ledger, s': State, w': Ledger, h: nat, chunk: seq<byte>)
    requires WellFormed(s) && h < MAX_OPEN_FILES && ValidInumber(s.files[h].inumber)
    requires 0 <= s.files[h].boffset < FILE_BLOCKS && s.files[h].offset + |chunk| <= BLOCK_SIZE
    requires |w.count| == INODE_TABLE_SIZE
  {
    var file := s.files[h];
    var f := file.inumber;
    && WellFormed(s') && Inv(s', w') && |w'.count| == INODE_TABLE_SIZE && OnlyFile(s, s', f, h)
    && w'.count == w.count[f := Max(w.count[f], file.boffset + 1)] && w'.bindings == w.bindings
    && KeepsBlocks(s, w, s', f, file.boffset)
    && |FileBlock(s', f, file.boffset)| == BLOCK_SIZE
    && FileBlock(s', f, file.boffset)[file.offset..file.offset + |chunk|] == chunk
    && (file.boffset < w.count[f] ==>
          |FileBlock(s, f, file.boffset)| == BLOCK_SIZE
          && FileBlock(s', f, file.boffset) == Splice(FileBlock(s, f, file.boffset), file.offset, chunk))
    && (s'.inodes[f].dataBlock == -1 <==> s.inodes[f].dataBlock == -1 && file.boffset < DIRECT_BLOCK_POINTERS)
    && FreeCount(s'.blocks) == FreeCount(s.blocks) - Missing(s, w, f, file.boffset + 1)
    && s'.inodes[f].size == Wrap(s.inodes[f].size + |chunk|)
    && Pos(s'.files[h]) == Pos(file) + |chunk|
  }

  lemma KeepsBlocksTrans(s: State, w: Ledger, s1: State, w1: Ledger, s2: State, f: int, e: int)
    requires WellFormed(s) && WellFormed(s1) && WellFormed(s2) && ValidInumber(f)
    requires |w.count| == |w1.count| == INODE_TABLE_SIZE
    requires forall g :: LiveFile(s, g) ==> LiveFile(s1, g) && w.count[g] <= w1.count[g] <= FILE_BLOCKS
    requires KeepsBlocks(s, w, s1, f, -1) && KeepsBlocks(s1, w1, s2, f, e)
    ensures KeepsBlocks(s, w, s2, f, e)
  {
    forall g, i | LiveFile(s, g) && 0 <= i < w.count[g] <= FILE_BLOCKS && !(g == f && i == e)
      ensures FileBlock(s2, g, i) == FileBlock(s, g, i)
    {
      assert FileBlock(s1, g, i) == FileBlock(s, g, i);
    }
  }

  /** The ledger after inode_update differs in the count of one file. */
  lemma ReachedFacts(s: State, w: Ledger, s1: State, w1: Ledger, f: nat)
    requires Inv(s, w) && Reached(s, w, s1, w1, f)
    ensures w1.count == w.count[f := w1.count[f]] && w1.bindings == w.bindings
    ensures s1.files == s.files && s1.fileTs == s.fileTs && s1.inodeTs == s.inodeTs
    ensures s1.inodes == s.inodes[f := s1.inodes[f]]
    ensures s1.inodes[f].kind == s.inodes[f].kind && s1.inodes[f].size == s.inodes[f].size
    ensures Inv(s1, w1)
    ensures forall g :: LiveFile(s, g) ==> LiveFile(s1, g) && w.count[g] <= w1.count[g] <= FILE_BLOCKS
  {
  }

  /** One round: with enough free blocks inode_update finds the place and the chunk goes there. */
  lemma WriteRound(s: State, w: Ledger, h: nat, chunk: seq<byte>) returns (w': Ledger)
    requires WellFormed(s) && Inv(s, w) && h < MAX_OPEN_FILES && LiveFile(s, s.files[h].inumber)
    requires |w.count| == INODE_TABLE_SIZE
    requires 0 <= s.files[h].boffset < FILE_BLOCKS && s.files[h].offset + |chunk| <= BLOCK_SIZE
    requires FreeCount(s.blocks) >= Missing(s, w, s.files[h].inumber, s.files[h].boffset + 1)
    ensures InodeUpdate(s, h).1.Address?
    ensures Round(s, w, PutBytes(InodeUpdate(s, h).0, h, InodeUpdate(s, h).1.at, chunk), w', h, chunk)
  {
    hide Inv, Extends, InodeUpdate, Ptr, FreeCount, KeepsBlocks;
    var f := s.files[h].inumber;
    var i := s.files[h].boffset;
    w' := InodeUpdateEffect(s, w, h);
    var (s1, p) := InodeUpdate(s, h);
    ReachedKeepsBlocks(s, w, s1, w', f);
    ReachedFacts(s, w, s1, w', f);
    var s2 := PutBytes(s1, h, p.at, chunk);
    PutBytesKeepsInv(s1, w', h, p.at, chunk);
    PutBytesContent(s1, w', h, p.at, chunk);
    KeepsBlocksTrans(s, w, s1, w', s2, f, i);
    if i < w.count[f] {
      KeptBlock(s, w, s1, f, i);
    }
  }

  lemma KeptBlock(s: State, w: Ledger, s': State, f: int, i: nat)
    requires WellFormed(s) && WellFormed(s') && |w.count| == INODE_TABLE_SIZE && KeepsBlocks(s, w, s', f, -1)
    requires LiveFile(s, f) && i < w.count[f] <= FILE_BLOCKS
    ensures FileBlock(s', f, i) == FileBlock(s, f, i)
  {
  }
}
