/**
 tfs_open and tfs_close on the block store: truncation gives back exactly the
 blocks of the file, creation binds a name or rolls back, and opening and
 closing change no byte of any other file.
 */
module StoreOpen {
  import opened Memory
  import opened Directory
  import opened StoreModel
  import opened Numbering
  import opened StoreOwnership
  import opened StoreUpdate
  import opened StoreWrite
  import opened StoreSplice

  /** File g has the same inode, the same blocks and the same bytes. */
  ghost predicate SameFile(s: State, w: Ledger, s': State, w': Ledger, g: int)
    requires WellFormed(s) && WellFormed(s') && |w.count| == |w'.count| == INODE_TABLE_SIZE && ValidInumber(g)
  {
    && s'.inodes[g] == s.inodes[g] && w'.count[g] == w.count[g]
    && (forall i :: 0 <= i < FILE_BLOCKS && i < w.count[g] ==> FileBlock(s', g, i) == FileBlock(s, g, i))
  }

  // ---------------------------------------------------------------------------
  // Truncation
  // ---------------------------------------------------------------------------

  /** s is s0 with the blocks of the first k slots of file f given back. */
  ghost predicate FreedUpTo(s0: State, w: Ledger, s: State, f: int, k: int)
    requires WellFormed(s0) && |w.owner| == DATA_BLOCKS
  {
    && |s.blocks| == DATA_BLOCKS && s == s0.(blocks := s.blocks)
    && (forall b :: 0 <= b < DATA_BLOCKS ==>
          s.blocks[b] == if w.owner[b].Slot? && w.owner[b].inode == f && w.owner[b].index < k then FREE else s0.blocks[b])
  }

  /** Giving back one more slot. */
  lemma FreeSlot(s0: State, w: Ledger, s: State, f: nat, k: nat)
    requires Inv(s0, w) && LiveFile(s0, f) && FreedUpTo(s0, w, s, f, k) && k <= INDEX_SLOT
    ensures Ptr(s0, f, k) == -1 ==> FreedUpTo(s0, w, s, f, k + 1)
    ensures Ptr(s0, f, k) != -1 ==>
              && WellFormed(s) && DataBlockFree(s, Ptr(s0, f, k)).1
              && FreedUpTo(s0, w, DataBlockFree(s, Ptr(s0, f, k)).0, f, k + 1)
              && FreeCount(DataBlockFree(s, Ptr(s0, f, k)).0.blocks) == FreeCount(s.blocks) + 1
  {
    var b := Ptr(s0, f, k);
    if b == -1 {
      forall c | 0 <= c < DATA_BLOCKS && w.owner[c].Slot? && w.owner[c].inode == f
        ensures w.owner[c].index != k
      {
        assert Ptr(s0, w.owner[c].inode, w.owner[c].index) == c;
      }
    } else {
      assert w.owner[b] == Slot(f, k);
      assert s.blocks[b] == TAKEN;
      CountUpdate(s.blocks, b, FREE, FREE);
      forall c | 0 <= c < DATA_BLOCKS && c != b && w.owner[c].Slot? && w.owner[c].inode == f
        ensures w.owner[c].index != k
      {
        assert Ptr(s0, w.owner[c].inode, w.owner[c].index) == c;
      }
    }
  }

  /** The number of the first k data slots that are set. */
  function SetSlots(w: Ledger, f: nat, k: nat): nat
    requires f < |w.count|
  {
    if k < w.count[f] then k else w.count[f]
  }

  lemma SlotIsSet(s: State, w: Ledger, f: int, i: nat)
    requires Inv(s, w) && LiveFile(s, f) && i < FILE_BLOCKS
    ensures |w.count| == INODE_TABLE_SIZE
    ensures Ptr(s, f, i) != -1 <==> i < w.count[f]
  {
  }

  lemma {:induction false} FreeDirectEffect(s0: State, w: Ledger, s: State, f: nat, i: nat)
    requires WellFormed(s0) && WellFormed(s) && Inv(s0, w) && LiveFile(s0, f)
    requires |w.owner| == DATA_BLOCKS && |w.count| == INODE_TABLE_SIZE
    requires i <= DIRECT_BLOCK_POINTERS && FreedUpTo(s0, w, s, f, i)
    requires FreeCount(s.blocks) == FreeCount(s0.blocks) + SetSlots(w, f, i)
    ensures var (s', ok) := FreeDirect(s, f, i);
            && ok && FreedUpTo(s0, w, s', f, DIRECT_BLOCK_POINTERS)
            && FreeCount(s'.blocks) == FreeCount(s0.blocks) + SetSlots(w, f, DIRECT_BLOCK_POINTERS)
    decreases DIRECT_BLOCK_POINTERS - i
  {
    hide Inv, FreeCount;
    if i < DIRECT_BLOCK_POINTERS {
      FreeSlot(s0, w, s, f, i);
      SlotIsSet(s0, w, f, i);
      assert Ptr(s0, f, i) == s.inodes[f].direct[i];
      if Ptr(s0, f, i) == -1 {
        FreeDirectEffect(s0, w, s, f, i + 1);
      } else {
        FreeDirectEffect(s0, w, DataBlockFree(s, Ptr(s0, f, i)).0, f, i + 1);
      }
    }
  }

  lemma {:induction false} FreePointersEffect(s0: State, w: Ledger, s: State, f: nat, blk: nat, j: nat)
    requires WellFormed(s0) && WellFormed(s) && Inv(s0, w) && LiveFile(s0, f)
    requires |w.owner| == DATA_BLOCKS && |w.count| == INODE_TABLE_SIZE
    requires s0.inodes[f].dataBlock == blk && blk < DATA_BLOCKS
    requires j <= MAX_BLOCK_POINTERS && FreedUpTo(s0, w, s, f, DIRECT_BLOCK_POINTERS + j)
    requires FreeCount(s.blocks) == FreeCount(s0.blocks) + SetSlots(w, f, DIRECT_BLOCK_POINTERS + j)
    ensures var (s', ok) := FreePointers(s, blk, j);
            && ok && FreedUpTo(s0, w, s', f, FILE_BLOCKS)
            && FreeCount(s'.blocks) == FreeCount(s0.blocks) + SetSlots(w, f, FILE_BLOCKS)
    decreases MAX_BLOCK_POINTERS - j
  {
    hide Inv, FreeCount, ReadInt;
    if j < MAX_BLOCK_POINTERS {
      var i := DIRECT_BLOCK_POINTERS + j;
      FreeSlot(s0, w, s, f, i);
      SlotIsSet(s0, w, f, i);
      assert Ptr(s0, f, i) == ReadInt(s.data, PointerAt(blk, j));
      if Ptr(s0, f, i) == -1 {
        FreePointersEffect(s0, w, s, f, blk, j + 1);
      } else {
        FreePointersEffect(s0, w, DataBlockFree(s, Ptr(s0, f, i)).0, f, blk, j + 1);
      }
    }
  }

  /** inode_data_free on a file with i_size > 0 gives back all its blocks and nothing else. */
  lemma InodeDataFreeEffect(s: State, w: Ledger, f: nat)
    requires WellFormed(s) && Inv(s, w) && LiveFile(s, f) && s.inodes[f].size > 0
    requires |w.owner| == DATA_BLOCKS && |w.count| == INODE_TABLE_SIZE
    ensures var (s', ok) := InodeDataFree(s, f);
            && ok && FreedUpTo(s, w, s', f, INDEX_SLOT + 1)
            && FreeCount(s'.blocks) == FreeCount(s.blocks) + Used(s, w, f)
  {
    hide Inv, FreeCount;
    ReachedRefl(s, w, f);
    CountFacts(s, w, s, w, f);
    NothingFreed(s, w, f);
    FreeDirectEffect(s, w, s, f, 0);
    var s1 := FreeDirect(s, f, 0).0;
    var blk := s.inodes[f].dataBlock;
    if blk == -1 {
      NoMoreSlots(s, w, s1, f, DIRECT_BLOCK_POINTERS);
    } else {
      FreePointersEffect(s, w, s1, f, blk, 0);
      FreeSlot(s, w, FreePointers(s1, blk, 0).0, f, INDEX_SLOT);
    }
  }

  lemma NothingFreed(s: State, w: Ledger, f: int)
    requires Inv(s, w) && LiveFile(s, f)
    ensures |w.owner| == DATA_BLOCKS && |w.count| == INODE_TABLE_SIZE && FreedUpTo(s, w, s, f, 0)
  {
  }

  /** Without an index block the file has direct slots only. */
  lemma NoMoreSlots(s0: State, w: Ledger, s: State, f: int, k: nat)
    requires Inv(s0, w) && LiveFile(s0, f) && s0.inodes[f].dataBlock == -1
    requires k == DIRECT_BLOCK_POINTERS && FreedUpTo(s0, w, s, f, k)
    ensures FreedUpTo(s0, w, s, f, INDEX_SLOT + 1)
  {
    forall b | 0 <= b < DATA_BLOCKS && w.owner[b].Slot? && w.owner[b].inode == f
      ensures w.owner[b].index < k
    {
      assert Ptr(s0, w.owner[b].inode, w.owner[b].index) == b;
    }
  }

  /** The ledger without the blocks of file f. */
  function Released(w: Ledger, f: int): (r: Ledger)
    requires |w.owner| == DATA_BLOCKS && 0 <= f < |w.count|
  {
    w.(owner := seq<Owner>(DATA_BLOCKS, b requires 0 <= b < DATA_BLOCKS =>
                  if w.owner[b].Slot? && w.owner[b].inode == f then Nobody else w.owner[b]),
       count := w.count[f := 0])
  }

  /** From the freed tables and the reset inode to the new ledger. */
  lemma ResetKeepsInv(s: State, w: Ledger, s1: State, f: nat)
    requires Inv(s, w) && LiveFile(s, f) && FreedUpTo(s, w, s1, f, INDEX_SLOT + 1) && WellFormed(s1)
    ensures |w.owner| == DATA_BLOCKS && |w.count| == INODE_TABLE_SIZE
    ensures Inv(InodeMetadataReset(s1, f), Released(w, f))
    ensures forall g :: LiveFile(s, g) && g != f ==> SameFile(s, w, InodeMetadataReset(s1, f), Released(w, f), g)
    ensures SameRoot(s, InodeMetadataReset(s1, f))
  {
    var s' := InodeMetadataReset(s1, f);
    var w' := Released(w, f);
    assert s'.data == s.data && s'.inodes == s.inodes[f := s'.inodes[f]];
    forall g, i | Live(s, g) && 0 <= i <= INDEX_SLOT
      ensures Ptr(s', g, i) == if g == f then -1 else Ptr(s, g, i)
    {
    }
    assert Owners(s', w') by {
      forall b | 0 <= b < DATA_BLOCKS && w'.owner[b].Slot?
        ensures Live(s', w'.owner[b].inode) && Ptr(s', w'.owner[b].inode, w'.owner[b].index) == b
      {
        assert w'.owner[b] == w.owner[b];
        assert Ptr(s, w.owner[b].inode, w.owner[b].index) == b;
      }
    }
    assert Shapes(s', w');
    forall g, i | LiveFile(s, g) && g != f && 0 <= i < FILE_BLOCKS
      ensures FileBlock(s', g, i) == FileBlock(s, g, i)
    {
      assert Ptr(s', g, i) == Ptr(s, g, i);
    }
  }

  /** What truncating file f does. */
  ghost predicate Truncated(s: State, w: Ledger, s': State, w': Ledger, f: nat)
    requires WellFormed(s) && LiveFile(s, f) && |w.count| == INODE_TABLE_SIZE
  {
    && WellFormed(s') && Inv(s', w') && |w'.count| == INODE_TABLE_SIZE
    && SameTables(s, s') && w'.bindings == w.bindings && SameRoot(s, s')
    && s'.inodes[f] == Inode(T_FILE, 0, -1, NoPointers()) && w'.count[f] == 0
    && (forall g :: LiveFile(s, g) && g != f ==> SameFile(s, w, s', w', g))
    && FreeCount(s'.blocks) == FreeCount(s.blocks) + Used(s, w, f)
  }

  /**
   Opening with TFS_O_TRUNC empties the file, gives back exactly the blocks it
   used and touches no other file. A file of size 0 must have no blocks, since
   inode_data_free skips it.
   */
  lemma TruncateReleases(s: State, w: Ledger, f: nat, flags: Flags) returns (w': Ledger)
    requires WellFormed(s) && Inv(s, w) && LiveFile(s, f) && flags.trunc && |w.count| == INODE_TABLE_SIZE
    requires SizedAt(s, w, f)
    ensures OpenExisting(s, f, flags).1 && Truncated(s, w, OpenExisting(s, f, flags).0, w', f)
  {
    hide Inv, FreeCount, InodeDataFree;
    NothingFreed(s, w, f);
    if s.inodes[f].size > 0 {
      InodeDataFreeEffect(s, w, f);
    } else {
      SkippedFree(s, w, f);
    }
    var s1 := InodeDataFree(s, f).0;
    ResetKeepsInv(s, w, s1, f);
    w' := Released(w, f);
  }

  /** inode_data_free on an empty file frees nothing, and nothing had to be freed. */
  lemma SkippedFree(s: State, w: Ledger, f: nat)
    requires Inv(s, w) && LiveFile(s, f) && s.inodes[f].size == 0 && SizedAt(s, w, f)
    ensures InodeDataFree(s, f) == (s, true) && FreedUpTo(s, w, s, f, INDEX_SLOT + 1) && Used(s, w, f) == 0
  {
    forall b | 0 <= b < DATA_BLOCKS && w.owner[b].Slot?
      ensures w.owner[b].inode != f
    {
      assert Ptr(s, w.owner[b].inode, w.owner[b].index) == b;
    }
  }

  // ---------------------------------------------------------------------------
  // Creation
  // ---------------------------------------------------------------------------

  /** A new file: a free inode becomes live, with no blocks. */
  lemma CreateInode(s: State, w: Ledger) returns (w': Ledger)
    requires Inv(s, w)
    ensures var (s', f) := InodeCreate(s, T_FILE);
            if f == -1 then s' == s && w' == w && forall g :: 0 <= g < INODE_TABLE_SIZE ==> Live(s, g)
            else
              && ValidInumber(f) && f != ROOT_DIR_INUM && !Live(s, f) && LiveFile(s', f) && f == FirstFree(s.inodeTs, 0)
              && Inv(s', w') && |w.count| == |w'.count| == INODE_TABLE_SIZE && w' == w.(count := w.count[f := 0])
              && s'.inodeTs == s.inodeTs[f := TAKEN] && s'.files == s.files && s'.fileTs == s.fileTs
              && s'.inodes == s.inodes[f := Inode(T_FILE, 0, -1, NoPointers())]
              && s'.data == s.data && s'.blocks == s.blocks
              && (forall g :: LiveFile(s, g) ==> SameFile(s, w, s', w', g))
  {
    var (s', f) := InodeCreate(s, T_FILE);
    if f == -1 {
      w' := w;
    } else {
      w' := w.(count := w.count[f := 0]);
      forall g, i | ValidInumber(g) && 0 <= i <= INDEX_SLOT
        ensures Ptr(s', g, i) == if g == f then -1 else Ptr(s, g, i)
      {
      }
      assert Owners(s', w') by {
        forall b | 0 <= b < DATA_BLOCKS && w'.owner[b].Slot?
          ensures Live(s', w'.owner[b].inode) && Ptr(s', w'.owner[b].inode, w'.owner[b].index) == b
        {
          assert Ptr(s, w.owner[b].inode, w.owner[b].index) == b;
        }
      }
      forall g, i | LiveFile(s, g) && 0 <= i < FILE_BLOCKS
        ensures FileBlock(s', g, i) == FileBlock(s, g, i)
      {
        assert Ptr(s', g, i) == Ptr(s, g, i);
      }
    }
  }

  /** Only bytes of the root directory's block differ. */
  ghost predicate OnlyRootBytes(s: State, s': State)
    requires WellFormed(s) && WellFormed(s')
  {
    && s' == s.(data := s'.data)
    && (forall c :: 0 <= c < DATA_BLOCKS && c != s.inodes[ROOT_DIR_INUM].dataBlock ==>
          BlockOf(s'.data, c) == BlockOf(s.data, c))
  }

  lemma RootBytesKeepSlots(s: State, w: Ledger, s': State)
    requires Inv(s, w) && WellFormed(s') && OnlyRootBytes(s, s')
    ensures forall g, i :: Live(s, g) && 0 <= i <= INDEX_SLOT ==> Ptr(s', g, i) == Ptr(s, g, i)
  {
    IndexBlockOwner(s, w, ROOT_DIR_INUM);
    forall g, i | Live(s, g) && 0 <= i <= INDEX_SLOT
      ensures Ptr(s', g, i) == Ptr(s, g, i)
    {
      if s.inodes[g].dataBlock != -1 {
        IndexBlockOwner(s, w, g);
      }
      PtrFrame(s, s', g);
    }
  }

  lemma RootBytesKeepFiles(s: State, w: Ledger, s': State)
    requires Inv(s, w) && WellFormed(s') && OnlyRootBytes(s, s')
    ensures |w.count| == INODE_TABLE_SIZE && Owners(s', w) && Shapes(s', w)
    ensures forall g :: LiveFile(s, g) ==> SameFile(s, w, s', w, g)
  {
    RootBytesKeepSlots(s, w, s');
    IndexBlockOwner(s, w, ROOT_DIR_INUM);
    forall g, i | LiveFile(s, g) && 0 <= i < FILE_BLOCKS && i < w.count[g]
      ensures FileBlock(s', g, i) == FileBlock(s, g, i)
    {
      assert w.owner[Ptr(s, g, i)] == Slot(g, i);
    }
  }

  /** The new entry goes into the root directory's block. */
  lemma EntryInRoot(s: State, w: Ledger, f: nat, name: cstring)
    requires Inv(s, w) && LiveFile(s, f) && name != [] && |w.bindings| < MAX_DIR_ENTRIES
    ensures var (s', ok) := AddDirEntry(s, ROOT_DIR_INUM, f, name);
            && ok && OnlyRootBytes(s, s')
            && Holds(s'.data, s.inodes[ROOT_DIR_INUM].dataBlock * BLOCK_SIZE, w.bindings + [Binding(Clip(name), f)])
  {
    hide Owners, Shapes, Holds, FillEntry, BlockOf;
    var r := s.inodes[ROOT_DIR_INUM].dataBlock;
    var base := r * BLOCK_SIZE;
    EmptyEntryIsEnd(s.data, base, w.bindings);
    AddBinding(s.data, base, w.bindings, f, name);
    forall c | 0 <= c < DATA_BLOCKS && c != r
      ensures BlockOf(FillEntry(s.data, base, |w.bindings|, f, name), c) == BlockOf(s.data, c)
    {
      EntryInBlock(s.data, r, |w.bindings|, f, name, c);
    }
  }

  /** A new entry in the root directory changes no file. It fails exactly when all 23 entries are used. */
  lemma BindInRoot(s: State, w: Ledger, f: nat, name: cstring) returns (w': Ledger)
    requires WellFormed(s) && Inv(s, w) && LiveFile(s, f) && name != [] && |w.count| == INODE_TABLE_SIZE
    ensures var (s', ok) := AddDirEntry(s, ROOT_DIR_INUM, f, name);
            && (ok <==> |w.bindings| < MAX_DIR_ENTRIES)
            && (!ok ==> s' == s && w' == w)
            && Inv(s', w') && s' == s.(data := s'.data)
            && (ok ==> w' == w.(bindings := w.bindings + [Binding(Clip(name), f)]))
            && (forall g :: LiveFile(s, g) ==> SameFile(s, w, s', w', g))
  {
    hide Owners, Shapes, SameFile, Holds, FillEntry, BlockOf;
    EntriesBounded(s, w);
    if |w.bindings| == MAX_DIR_ENTRIES {
      EmptyEntryIsEnd(s.data, s.inodes[ROOT_DIR_INUM].dataBlock * BLOCK_SIZE, w.bindings);
      SameFiles(s, w);
      w' := w;
    } else {
      EntryInRoot(s, w, f, name);
      var s' := AddDirEntry(s, ROOT_DIR_INUM, f, name).0;
      w' := w.(bindings := w.bindings + [Binding(Clip(name), f)]);
      RootBytesKeepFiles(s, w, s');
      LedgerParts(s', w, w');
      SameFilesBindings(s, w, s', w');
    }
  }

  lemma EntriesBounded(s: State, w: Ledger)
    requires Inv(s, w)
    ensures |w.bindings| <= MAX_DIR_ENTRIES
  {
  }

  lemma SameFiles(s: State, w: Ledger)
    requires WellFormed(s) && |w.count| == INODE_TABLE_SIZE
    ensures forall g :: ValidInumber(g) ==> SameFile(s, w, s, w, g)
  {
  }

  lemma SameFilesBindings(s: State, w: Ledger, s': State, w': Ledger)
    requires WellFormed(s) && WellFormed(s') && |w.count| == INODE_TABLE_SIZE && w'.count == w.count
    ensures forall g :: ValidInumber(g) ==> (SameFile(s, w, s', w, g) <==> SameFile(s, w, s', w', g))
  {
  }

  /** Owners and shapes do not depend on the bindings. */
  lemma LedgerParts(s: State, w: Ledger, w': Ledger)
    requires WellFormed(s) && Owners(s, w) && Shapes(s, w) && w'.owner == w.owner && w'.count == w.count
    ensures Owners(s, w') && Shapes(s, w')
  {
  }

  /** The failed create gives the inode back. */
  lemma DeleteNew(s: State, w: Ledger, s1: State, w1: Ledger, f: nat)
    requires Inv(s, w) && Inv(s1, w1) && f < INODE_TABLE_SIZE && f != ROOT_DIR_INUM && !Live(s, f)
    requires s1.inodeTs == s.inodeTs[f := TAKEN] && s1.files == s.files && s1.fileTs == s.fileTs
    requires s1.inodes == s.inodes[f := Inode(T_FILE, 0, -1, NoPointers())]
    requires s1.data == s.data && s1.blocks == s.blocks
    ensures var s' := InodeDelete(s1, f).0;
            && Inv(s', w) && s' == s.(inodes := s.inodes[f := s'.inodes[f]])
            && (forall g :: LiveFile(s, g) ==> SameFile(s, w, s', w, g))
  {
    var s' := InodeDelete(s1, f).0;
    assert s'.inodeTs == s.inodeTs;
    forall g, i | ValidInumber(g) && g != f && 0 <= i <= INDEX_SLOT
      ensures Ptr(s', g, i) == Ptr(s, g, i)
    {
    }
    assert Owners(s', w) by {
      forall b | 0 <= b < DATA_BLOCKS && w.owner[b].Slot?
        ensures Ptr(s', w.owner[b].inode, w.owner[b].index) == b
      {
        assert Ptr(s, w.owner[b].inode, w.owner[b].index) == b;
      }
    }
    forall g, i | LiveFile(s, g) && 0 <= i < FILE_BLOCKS
      ensures FileBlock(s', g, i) == FileBlock(s, g, i)
    {
      assert Ptr(s', g, i) == Ptr(s, g, i);
    }
  }
}
