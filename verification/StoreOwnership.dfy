/**
 Who owns which block. A ledger names, for every TAKEN block, the one pointer
 slot that leads to it: one of the 266 data pointers of a file, its index block,
 or the block of the root directory. The allocation steps of inode_update keep
 the ledger exact.
 */
module StoreOwnership {
  import opened Memory
  import opened Directory
  import opened StoreModel
  import opened Numbering

  /** The slot number of `i_data_block`; slots 0..265 are the data pointers. */
  const INDEX_SLOT: nat := 266

  datatype Owner = Nobody | Slot(inode: int, index: int)

  /** Owner of each block, number of mapped blocks of each inode, bindings of the root directory. */
  datatype Ledger = Ledger(owner: seq<Owner>, count: seq<nat>, bindings: seq<Binding>)

  predicate Live(s: State, f: int)
    requires WellFormed(s)
  {
    ValidInumber(f) && s.inodeTs[f] == TAKEN
  }

  predicate LiveFile(s: State, f: int)
    requires WellFormed(s)
  {
    Live(s, f) && s.inodes[f].kind == T_FILE
  }

  /** What a slot of an inode holds: a block number, or -1. */
  function Ptr(s: State, f: int, i: int): int
    requires WellFormed(s) && ValidInumber(f) && 0 <= i <= INDEX_SLOT
  {
    var ino := s.inodes[f];
    if i == INDEX_SLOT then ino.dataBlock
    else if i < DIRECT_BLOCK_POINTERS then ino.direct[i]
    else if ino.kind == T_FILE && ValidBlock(ino.dataBlock) then
      ReadInt(s.data, PointerAt(ino.dataBlock, i - DIRECT_BLOCK_POINTERS))
    else -1
  }

  /** The bytes of one block. */
  function BlockOf(data: seq<byte>, b: int): (r: seq<byte>)
    requires |data| == DATA_SIZE && ValidBlock(b)
    ensures |r| == BLOCK_SIZE
  {
    data[b * BLOCK_SIZE..(b + 1) * BLOCK_SIZE]
  }

  /** The owner relation is a bijection between TAKEN blocks and pointer slots that are set. */
  ghost predicate Owners(s: State, w: Ledger)
    requires WellFormed(s)
  {
    && |w.owner| == DATA_BLOCKS
    && (forall b :: 0 <= b < DATA_BLOCKS ==> (s.blocks[b] == TAKEN <==> w.owner[b].Slot?))
    && (forall b :: 0 <= b < DATA_BLOCKS && w.owner[b].Slot? ==>
          && Live(s, w.owner[b].inode) && 0 <= w.owner[b].index <= INDEX_SLOT
          && Ptr(s, w.owner[b].inode, w.owner[b].index) == b)
    && (forall f, i :: Live(s, f) && 0 <= i <= INDEX_SLOT && Ptr(s, f, i) != -1 ==>
          ValidBlock(Ptr(s, f, i)) && w.owner[Ptr(s, f, i)] == Slot(f, i))
  }

  /** The data pointers of a live inode are a prefix of `count` slots. */
  ghost predicate Shapes(s: State, w: Ledger)
    requires WellFormed(s)
  {
    && |w.count| == INODE_TABLE_SIZE
    && (forall f :: Live(s, f) ==>
          && w.count[f] <= FILE_BLOCKS
          && (w.count[f] > DIRECT_BLOCK_POINTERS ==> s.inodes[f].dataBlock != -1)
          && (s.inodes[f].kind == T_FILE && s.inodes[f].dataBlock != -1 ==> w.count[f] >= DIRECT_BLOCK_POINTERS))
    && (forall f, i :: Live(s, f) && 0 <= i < FILE_BLOCKS ==> (Ptr(s, f, i) != -1 <==> i < w.count[f]))
  }

  /** The root directory is inode 0, the only directory, and binds names to live files. */
  ghost predicate Root(s: State, w: Ledger)
    requires WellFormed(s)
  {
    && Live(s, ROOT_DIR_INUM) && ValidBlock(s.inodes[ROOT_DIR_INUM].dataBlock)
    && |w.count| == INODE_TABLE_SIZE && w.count[ROOT_DIR_INUM] == 0
    && (forall f :: Live(s, f) ==> (s.inodes[f].kind == T_DIRECTORY <==> f == ROOT_DIR_INUM))
    && Holds(s.data, s.inodes[ROOT_DIR_INUM].dataBlock * BLOCK_SIZE, w.bindings)
    && (forall i :: 0 <= i < |w.bindings| ==> LiveFile(s, w.bindings[i].inumber))
  }

  ghost predicate Inv(s: State, w: Ledger) {
    WellFormed(s) && Owners(s, w) && Shapes(s, w) && Root(s, w)
  }

  /** The slots whose blocks hold file bytes or directory entries, not pointers. */
  predicate DataSlot(o: Owner) {
    o.Slot? && (o.index < FILE_BLOCKS || o.inode == ROOT_DIR_INUM)
  }

  /** The new state maps at least what the old one mapped, with the same bytes; only f gains blocks. */
  ghost predicate Extends(s: State, w: Ledger, s': State, w': Ledger, f: int)
    requires WellFormed(s) && WellFormed(s') && |w.owner| == |w'.owner| == DATA_BLOCKS
    requires |w.count| == |w'.count| == INODE_TABLE_SIZE && ValidInumber(f)
  {
    && SameTables(s, s') && w'.bindings == w.bindings
    && (forall g :: 0 <= g < INODE_TABLE_SIZE && g != f ==> s'.inodes[g] == s.inodes[g] && w'.count[g] == w.count[g])
    && s'.inodes[f].kind == s.inodes[f].kind && s'.inodes[f].size == s.inodes[f].size
    && w'.count[f] >= w.count[f]
    && (forall b :: 0 <= b < DATA_BLOCKS && w.owner[b].Slot? ==> w'.owner[b] == w.owner[b])
    && (forall b :: 0 <= b < DATA_BLOCKS && DataSlot(w.owner[b]) ==> BlockOf(s'.data, b) == BlockOf(s.data, b))
  }

  // ---------------------------------------------------------------------------
  // Counting free blocks
  // ---------------------------------------------------------------------------

  function FreeCount(t: seq<Allocation>): (n: nat)
    ensures n <= |t|
  {
    Count(t, FREE)
  }

  /** data_block_alloc fails exactly when no block is free, and otherwise uses up one. */
  lemma AllocCounts(s: State)
    requires WellFormed(s)
    ensures DataBlockAlloc(s).1 == -1 <==> FreeCount(s.blocks) == 0
    ensures DataBlockAlloc(s).1 != -1 ==> FreeCount(DataBlockAlloc(s).0.blocks) == FreeCount(s.blocks) - 1
  {
    var b := FirstFree(s.blocks, 0);
    if b == -1 {
      CountUniform(s.blocks, TAKEN, FREE);
    } else {
      CountPositive(s.blocks, b, FREE);
      CountUpdate(s.blocks, b, TAKEN, FREE);
    }
  }

  // ---------------------------------------------------------------------------
  // Bytes of blocks
  // ---------------------------------------------------------------------------

  /** A copy inside block b changes no other block. */
  lemma SpliceOtherBlock(data: seq<byte>, at: nat, src: seq<byte>, b: nat, c: nat)
    requires |data| == DATA_SIZE && ValidBlock(b) && ValidBlock(c) && b != c
    requires b * BLOCK_SIZE <= at && at + |src| <= (b + 1) * BLOCK_SIZE
    ensures at + |src| <= |data|
    ensures BlockOf(Splice(data, at, src), c) == BlockOf(data, c)
  {
  }

  /** Filling an entry of block r changes no other block. */
  lemma EntryInBlock(data: seq<byte>, r: nat, i: nat, f: nat, name: cstring, c: nat)
    requires |data| == DATA_SIZE && ValidBlock(r) && ValidBlock(c) && c != r && i < MAX_DIR_ENTRIES && IsInt(f)
    ensures BlockOf(FillEntry(data, r * BLOCK_SIZE, i, f, name), c) == BlockOf(data, c)
  {
    FillEntryEffect(data, r * BLOCK_SIZE, i, f, name);
    var data' := FillEntry(data, r * BLOCK_SIZE, i, f, name);
    forall k | 0 <= k < BLOCK_SIZE
      ensures BlockOf(data', c)[k] == BlockOf(data, c)[k]
    {
      assert c * BLOCK_SIZE + k < r * BLOCK_SIZE || c * BLOCK_SIZE + k >= (r + 1) * BLOCK_SIZE;
    }
  }

  /** The pointers of an index block depend on its bytes only. */
  lemma PointersFrame(data: seq<byte>, data': seq<byte>, blk: nat)
    requires |data| == |data'| == DATA_SIZE && ValidBlock(blk)
    requires BlockOf(data, blk) == BlockOf(data', blk)
    ensures forall j: nat :: j < MAX_BLOCK_POINTERS ==>
              ReadInt(data, PointerAt(blk, j)) == ReadInt(data', PointerAt(blk, j))
  {
    forall j: nat | j < MAX_BLOCK_POINTERS
      ensures ReadInt(data, PointerAt(blk, j)) == ReadInt(data', PointerAt(blk, j))
    {
      var at := PointerAt(blk, j);
      forall i | at <= i < at + 4
        ensures data[i] == data'[i]
      {
        assert data[i] == BlockOf(data, blk)[i - blk * BLOCK_SIZE];
        assert data'[i] == BlockOf(data', blk)[i - blk * BLOCK_SIZE];
      }
      ReadIntFrame(data, data', at);
    }
  }

  /** Storing pointer j of an index block leaves its other pointers alone. */
  lemma OtherPointers(data: seq<byte>, blk: nat, j: nat, b: int, i: nat)
    requires |data| == DATA_SIZE && ValidBlock(blk) && j < MAX_BLOCK_POINTERS && i < MAX_BLOCK_POINTERS && IsInt(b)
    ensures ReadInt(WriteInt(data, PointerAt(blk, j), b), PointerAt(blk, i)) ==
            if i == j then b else ReadInt(data, PointerAt(blk, i))
  {
    if i == j {
      ReadWrittenInt(data, PointerAt(blk, j), b);
    } else {
      ReadIntFrame(data, WriteInt(data, PointerAt(blk, j), b), PointerAt(blk, i));
    }
  }

  lemma EmptyPointersAreEmpty(data: seq<byte>, blk: nat, j: nat)
    requires |data| == DATA_SIZE && ValidBlock(blk) && j < MAX_BLOCK_POINTERS
    ensures ReadInt(Splice(data, blk * BLOCK_SIZE, EmptyPointers()), PointerAt(blk, j)) == -1
  {
    var d := Splice(data, blk * BLOCK_SIZE, EmptyPointers());
    assert d[PointerAt(blk, j)..PointerAt(blk, j) + 4] == [255, 255, 255, 255];
    AllOnesIsMinusOne();
  }

  /** An inode's slots depend on the inode and the bytes of its index block. */
  lemma PtrFrame(s: State, s': State, f: int)
    requires WellFormed(s) && WellFormed(s') && ValidInumber(f)
    requires s'.inodes[f].kind == s.inodes[f].kind && s'.inodes[f].dataBlock == s.inodes[f].dataBlock
    requires s'.inodes[f].direct == s.inodes[f].direct
    requires s.inodes[f].kind == T_FILE && ValidBlock(s.inodes[f].dataBlock) ==>
               BlockOf(s.data, s.inodes[f].dataBlock) == BlockOf(s'.data, s.inodes[f].dataBlock)
    ensures forall i :: 0 <= i <= INDEX_SLOT ==> Ptr(s', f, i) == Ptr(s, f, i)
  {
    if s.inodes[f].kind == T_FILE && ValidBlock(s.inodes[f].dataBlock) {
      PointersFrame(s.data, s'.data, s.inodes[f].dataBlock);
    }
  }

  /** The index block of a live file is owned through its index slot. */
  lemma IndexBlockOwner(s: State, w: Ledger, f: int)
    requires WellFormed(s) && Owners(s, w) && Live(s, f) && s.inodes[f].dataBlock != -1
    ensures ValidBlock(s.inodes[f].dataBlock) && w.owner[s.inodes[f].dataBlock] == Slot(f, INDEX_SLOT)
  {
    assert Ptr(s, f, INDEX_SLOT) == s.inodes[f].dataBlock;
  }

  /** The root directory survives when its block keeps its bytes. */
  lemma RootFrame(s: State, w: Ledger, s': State, w': Ledger, f: int)
    requires Inv(s, w) && WellFormed(s') && LiveFile(s, f)
    requires |w'.owner| == DATA_BLOCKS && |w'.count| == INODE_TABLE_SIZE
    requires Extends(s, w, s', w', f)
    ensures Root(s', w')
  {
    var b := s.inodes[ROOT_DIR_INUM].dataBlock;
    IndexBlockOwner(s, w, ROOT_DIR_INUM);
    assert DataSlot(w.owner[b]);
    assert BlockOf(s'.data, b) == BlockOf(s.data, b);
    forall p | b * BLOCK_SIZE <= p < (b + 1) * BLOCK_SIZE
      ensures s.data[p] == s'.data[p]
    {
      assert s.data[p] == BlockOf(s.data, b)[p - b * BLOCK_SIZE];
      assert s'.data[p] == BlockOf(s'.data, b)[p - b * BLOCK_SIZE];
    }
    HoldsFrame(s.data, s'.data, b * BLOCK_SIZE, w.bindings);
  }

  // ---------------------------------------------------------------------------
  // The three allocation steps of inode_update
  // ---------------------------------------------------------------------------

  function Assign(w: Ledger, b: nat, f: nat, i: nat): Ledger
    requires b < |w.owner| && f < |w.count|
  {
    w.(owner := w.owner[b := Slot(f, i)], count := if i < FILE_BLOCKS then w.count[f := i + 1] else w.count)
  }

  /** From pointwise facts about the slots to the ledger after one assignment. */
  lemma AssignKeeps(s: State, w: Ledger, s': State, f: nat, i: nat, b: nat)
    requires Inv(s, w) && WellFormed(s') && LiveFile(s, f) && b < DATA_BLOCKS && i <= INDEX_SLOT
    requires s.blocks[b] == FREE && s'.blocks == s.blocks[b := TAKEN]
    requires SameTables(s, s') && s'.inodes == s.inodes[f := s'.inodes[f]]
    requires s'.inodes[f].kind == T_FILE && s'.inodes[f].size == s.inodes[f].size
    requires forall g, j :: Live(s, g) && 0 <= j <= INDEX_SLOT && !(g == f && j == i) ==> Ptr(s', g, j) == Ptr(s, g, j)
    requires Ptr(s', f, i) == b && Ptr(s, f, i) == -1
    requires i < FILE_BLOCKS ==> i == w.count[f]
    requires i == INDEX_SLOT ==> w.count[f] == DIRECT_BLOCK_POINTERS
    requires i >= DIRECT_BLOCK_POINTERS ==> s'.inodes[f].dataBlock != -1
    requires i < DIRECT_BLOCK_POINTERS ==> s'.inodes[f].dataBlock == -1
    requires forall c :: 0 <= c < DATA_BLOCKS && DataSlot(w.owner[c]) ==> BlockOf(s'.data, c) == BlockOf(s.data, c)
    ensures Inv(s', Assign(w, b, f, i)) && Extends(s, w, s', Assign(w, b, f, i), f)
  {
    var w' := Assign(w, b, f, i);
    assert w.owner[b] == Nobody;
    assert Owners(s', w') by {
      forall g, j | Live(s', g) && 0 <= j <= INDEX_SLOT && Ptr(s', g, j) != -1
        ensures ValidBlock(Ptr(s', g, j)) && w'.owner[Ptr(s', g, j)] == Slot(g, j)
      {
        if !(g == f && j == i) {
          assert Ptr(s', g, j) == Ptr(s, g, j);
        }
      }
    }
    assert Shapes(s', w') by {
      forall g, j | Live(s', g) && 0 <= j < FILE_BLOCKS
        ensures Ptr(s', g, j) != -1 <==> j < w'.count[g]
      {
        if !(g == f && j == i) {
          assert Ptr(s', g, j) == Ptr(s, g, j);
        }
      }
    }
    RootFrame(s, w, s', w', f);
  }

  /** `i_direct_blocks[i] = data_block_alloc()` on the first missing direct pointer. */
  lemma AssignDirect(s: State, w: Ledger, f: nat)
    requires Inv(s, w) && LiveFile(s, f) && w.count[f] < DIRECT_BLOCK_POINTERS && FreeCount(s.blocks) > 0
    ensures var (s1, b) := DataBlockAlloc(s);
            var s' := SetDirect(s1, f, w.count[f], b);
            && ValidBlock(b)
            && Inv(s', Assign(w, b, f, w.count[f])) && Extends(s, w, s', Assign(w, b, f, w.count[f]), f)
            && FreeCount(s'.blocks) == FreeCount(s.blocks) - 1
  {
    AllocCounts(s);
    var (s1, b) := DataBlockAlloc(s);
    var i := w.count[f];
    var s' := SetDirect(s1, f, i, b);
    assert Ptr(s, f, i) == -1;
    forall g, j | Live(s, g) && 0 <= j <= INDEX_SLOT && !(g == f && j == i)
      ensures Ptr(s', g, j) == Ptr(s, g, j)
    {
    }
    AssignKeeps(s, w, s', f, i, b);
  }

  /** `i_data_block = pointer_block_alloc()`. */
  lemma AssignIndexBlock(s: State, w: Ledger, f: nat)
    requires Inv(s, w) && LiveFile(s, f) && w.count[f] == DIRECT_BLOCK_POINTERS
    requires s.inodes[f].dataBlock == -1 && FreeCount(s.blocks) > 0
    ensures var s' := EnsureIndexBlock(s, f);
            var b := s'.inodes[f].dataBlock;
            && ValidBlock(b)
            && Inv(s', Assign(w, b, f, INDEX_SLOT)) && Extends(s, w, s', Assign(w, b, f, INDEX_SLOT), f)
            && FreeCount(s'.blocks) == FreeCount(s.blocks) - 1
  {
    AllocCounts(s);
    var (s1, b) := PointerBlockAlloc(s);
    var s' := SetDataBlock(s1, f, b);
    forall c: nat | c < DATA_BLOCKS && c != b
      ensures BlockOf(s'.data, c) == BlockOf(s.data, c)
    {
      SpliceOtherBlock(s.data, b * BLOCK_SIZE, EmptyPointers(), b, c);
    }
    assert w.owner[b] == Nobody;
    forall g, j | Live(s, g) && 0 <= j <= INDEX_SLOT && !(g == f && j == INDEX_SLOT)
      ensures Ptr(s', g, j) == Ptr(s, g, j)
    {
      if g == f {
        if j >= DIRECT_BLOCK_POINTERS {
          EmptyPointersAreEmpty(s.data, b, j - DIRECT_BLOCK_POINTERS);
        }
      } else {
        if s.inodes[g].dataBlock != -1 {
          IndexBlockOwner(s, w, g);
        }
        PtrFrame(s, s', g);
      }
    }
    AssignKeeps(s, w, s', f, INDEX_SLOT, b);
  }

  /** A store into pointer j of f's index block changes that one slot, and no other block. */
  lemma StorePointer(s: State, w: Ledger, f: nat, j: nat, b: int, s': State)
    requires Inv(s, w) && LiveFile(s, f) && s.inodes[f].dataBlock != -1 && j < MAX_BLOCK_POINTERS && IsInt(b)
    requires WellFormed(s') && s'.inodes == s.inodes && ValidBlock(s.inodes[f].dataBlock)
    requires s'.data == WriteInt(s.data, PointerAt(s.inodes[f].dataBlock, j), b)
    ensures forall c :: 0 <= c < DATA_BLOCKS && c != s.inodes[f].dataBlock ==> BlockOf(s'.data, c) == BlockOf(s.data, c)
    ensures forall g, i :: Live(s, g) && 0 <= i <= INDEX_SLOT ==>
              Ptr(s', g, i) == if g == f && i == DIRECT_BLOCK_POINTERS + j then b else Ptr(s, g, i)
  {
    var blk := s.inodes[f].dataBlock;
    IndexBlockOwner(s, w, f);
    forall c | 0 <= c < DATA_BLOCKS && c != blk
      ensures BlockOf(s'.data, c) == BlockOf(s.data, c)
    {
      SpliceOtherBlock(s.data, PointerAt(blk, j), EncodeInt(b), blk, c);
    }
    forall g, i | Live(s, g) && 0 <= i <= INDEX_SLOT
      ensures Ptr(s', g, i) == if g == f && i == DIRECT_BLOCK_POINTERS + j then b else Ptr(s, g, i)
    {
      if g == f {
        if DIRECT_BLOCK_POINTERS <= i < INDEX_SLOT {
          OtherPointers(s.data, blk, j, b, i - DIRECT_BLOCK_POINTERS);
        }
      } else {
        if s.inodes[g].dataBlock != -1 {
          IndexBlockOwner(s, w, g);
        }
        PtrFrame(s, s', g);
      }
    }
  }

  /** `bpointer[j] = data_block_alloc()` on the first missing pointer of the index block. */
  lemma AssignPointer(s: State, w: Ledger, f: nat)
    requires Inv(s, w) && LiveFile(s, f) && DIRECT_BLOCK_POINTERS <= w.count[f] < FILE_BLOCKS
    requires s.inodes[f].dataBlock != -1 && FreeCount(s.blocks) > 0
    ensures ValidBlock(s.inodes[f].dataBlock)
    ensures var (s1, b) := DataBlockAlloc(s);
            var s' := SetPointer(s1, s.inodes[f].dataBlock, w.count[f] - DIRECT_BLOCK_POINTERS, b);
            && ValidBlock(b)
            && Inv(s', Assign(w, b, f, w.count[f])) && Extends(s, w, s', Assign(w, b, f, w.count[f]), f)
            && FreeCount(s'.blocks) == FreeCount(s.blocks) - 1
  {
    AllocCounts(s);
    IndexBlockOwner(s, w, f);
    var (s1, b) := DataBlockAlloc(s);
    var i := w.count[f];
    var blk := s.inodes[f].dataBlock;
    var s' := SetPointer(s1, blk, i - DIRECT_BLOCK_POINTERS, b);
    assert Ptr(s, f, i) == -1;
    assert s'.inodes[f] == s.inodes[f] && s'.inodes == s.inodes[f := s'.inodes[f]];
    StorePointer(s, w, f, i - DIRECT_BLOCK_POINTERS, b, s');
    assert !DataSlot(w.owner[blk]);
    AssignKeeps(s, w, s', f, i, b);
  }
}
