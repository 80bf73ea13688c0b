/**
 From a phase of concurrent updates back to the block store: the tables it leaves
 have an exact ledger again, with every byte of the files where it was, so that
 sequential calls can follow.
 */
module ConcurrentReturn {
  import opened Memory
  import opened Directory
  import opened StoreModel
  import opened StoreOwnership
  import opened StoreWrite
  import C = ConcurrentUpdate
  import S = ConcurrentShape

  /** Block b is the index block of a live file. */
  predicate IsIndex(s: State, e: C.World, b: int)
    requires WellFormed(s) && C.Sizes(e)
  {
    exists f | 0 <= f < INODE_TABLE_SIZE :: LiveFile(s, f) && e.dataBlock[f] == b
  }

  /** The pointers are what an int holds. */
  ghost predicate IntPointers(s: State, e: C.World)
    requires WellFormed(s) && C.Sizes(e)
  {
    forall b, j :: 0 <= b < DATA_BLOCKS && IsIndex(s, e, b) && 0 <= j < MAX_BLOCK_POINTERS ==> IsInt(e.pointers[b][j])
  }

  /** Byte p of fs_data after the phase: a pointer's byte in an index block, the old one elsewhere. */
  ghost function ByteAfter(s: State, e: C.World, p: nat): byte
    requires WellFormed(s) && C.Sizes(e) && IntPointers(s, e) && p < DATA_SIZE
  {
    var b := p / BLOCK_SIZE;
    if IsIndex(s, e, b) then EncodeInt(e.pointers[b][p % BLOCK_SIZE / 4])[p % 4] else s.data[p]
  }

  /** The tables of part one after a phase that started from s and ended in e. */
  ghost function Leave(s: State, e: C.World): (r: State)
    requires WellFormed(s) && C.Sizes(e) && IntPointers(s, e)
    ensures WellFormed(r)
  {
    s.(blocks := e.blocks,
       inodes := seq(INODE_TABLE_SIZE, f requires 0 <= f < INODE_TABLE_SIZE =>
         if LiveFile(s, f) then s.inodes[f].(direct := e.direct[f], dataBlock := e.dataBlock[f]) else s.inodes[f]),
       data := seq<byte>(DATA_SIZE, p requires 0 <= p < DATA_SIZE => ByteAfter(s, e, p)))
  }

  /** How many data slots of inode f are set from i on, without a gap. */
  ghost function CountFrom(e: C.World, f: nat, i: nat): (n: nat)
    requires C.Sizes(e) && f < INODE_TABLE_SIZE && i <= FILE_BLOCKS
    ensures i <= n <= FILE_BLOCKS
    ensures forall j :: i <= j < n ==> C.SlotOf(e, f, j) != -1
    ensures n < FILE_BLOCKS ==> C.SlotOf(e, f, n) == -1
    decreases FILE_BLOCKS - i
  {
    if i == FILE_BLOCKS || C.SlotOf(e, f, i) == -1 then i else CountFrom(e, f, i + 1)
  }

  /** The ledger after the phase. */
  ghost function LedgerOf(s: State, w: Ledger, e: C.World, o: seq<C.Holder>): (r: Ledger)
    requires WellFormed(s) && C.Sizes(e) && |o| == DATA_BLOCKS && |w.count| == INODE_TABLE_SIZE
    ensures |r.owner| == DATA_BLOCKS && |r.count| == INODE_TABLE_SIZE && r.bindings == w.bindings
  {
    Ledger(
      seq<Owner>(DATA_BLOCKS, b requires 0 <= b < DATA_BLOCKS =>
        match o[b]
        case Stored(f, i) => Slot(f, i)
        case Directory => Slot(ROOT_DIR_INUM, INDEX_SLOT)
        case _ => Nobody),
      seq<nat>(INODE_TABLE_SIZE, f requires 0 <= f < INODE_TABLE_SIZE =>
        if LiveFile(s, f) then CountFrom(e, f, 0) else w.count[f]),
      w.bindings)
  }

  /** What the phase from s to e has kept. */
  ghost predicate Phase(s: State, w: Ledger, e: C.World, o: seq<C.Holder>) {
    && WellFormed(s) && Inv(s, w) && |w.count| == INODE_TABLE_SIZE && |w.owner| == DATA_BLOCKS
    && C.Sizes(e) && |o| == DATA_BLOCKS && C.Holders(e, o) && S.Prefixes(e)
    && (forall b :: 0 <= b < DATA_BLOCKS ==> !o[b].InHand?)
    && (forall b :: 0 <= b < DATA_BLOCKS ==> (o[b] == C.Directory <==> b == s.inodes[ROOT_DIR_INUM].dataBlock))
    && (forall f, i :: ValidInumber(f) && 0 <= i <= INDEX_SLOT && !LiveFile(s, f) ==> C.SlotOf(e, f, i) == -1)
    && (forall f, i :: LiveFile(s, f) && 0 <= i <= INDEX_SLOT && Ptr(s, f, i) != -1 ==> C.SlotOf(e, f, i) == Ptr(s, f, i))
  }

  lemma PhaseIntPointers(s: State, w: Ledger, e: C.World, o: seq<C.Holder>)
    requires Phase(s, w, e, o)
    ensures IntPointers(s, e)
  {
    forall b, j | 0 <= b < DATA_BLOCKS && IsIndex(s, e, b) && 0 <= j < MAX_BLOCK_POINTERS
      ensures IsInt(e.pointers[b][j])
    {
      var f :| 0 <= f < INODE_TABLE_SIZE && LiveFile(s, f) && e.dataBlock[f] == b;
      assert C.SlotOf(e, f, DIRECT_BLOCK_POINTERS + j) == e.pointers[b][j];
    }
  }

  /** A pointer of an index block reads back. */
  lemma PointerBack(s: State, e: C.World, b: nat, j: nat)
    requires WellFormed(s) && C.Sizes(e) && IntPointers(s, e) && b < DATA_BLOCKS && IsIndex(s, e, b) && j < MAX_BLOCK_POINTERS
    ensures ReadInt(Leave(s, e).data, PointerAt(b, j)) == e.pointers[b][j]
  {
    var at := PointerAt(b, j);
    var data := Leave(s, e).data;
    var v := e.pointers[b][j];
    forall k | 0 <= k < 4
      ensures data[at..at + 4][k] == EncodeInt(v)[k]
    {
      assert (at + k) / BLOCK_SIZE == b && (at + k) % BLOCK_SIZE == 4 * j + k && (4 * j + k) / 4 == j && (at + k) % 4 == k;
      assert data[at + k] == ByteAfter(s, e, at + k);
    }
    assert data[at..at + 4] == EncodeInt(v);
    DecodeEncodeInt(v);
  }

  /** Other blocks keep their bytes. */
  lemma BlockBack(s: State, e: C.World, b: nat)
    requires WellFormed(s) && C.Sizes(e) && IntPointers(s, e) && b < DATA_BLOCKS && !IsIndex(s, e, b)
    ensures BlockOf(Leave(s, e).data, b) == BlockOf(s.data, b)
  {
    var data := Leave(s, e).data;
    forall k | 0 <= k < BLOCK_SIZE
      ensures BlockOf(data, b)[k] == BlockOf(s.data, b)[k]
    {
      assert (b * BLOCK_SIZE + k) / BLOCK_SIZE == b;
      assert data[b * BLOCK_SIZE + k] == ByteAfter(s, e, b * BLOCK_SIZE + k);
    }
  }

  /** An index block is held through an index slot. */
  lemma IndexHolder(s: State, w: Ledger, e: C.World, o: seq<C.Holder>, b: nat)
    requires Phase(s, w, e, o) && b < DATA_BLOCKS && IsIndex(s, e, b)
    ensures o[b].Stored? && o[b].i == INDEX_SLOT
  {
    var f :| 0 <= f < INODE_TABLE_SIZE && LiveFile(s, f) && e.dataBlock[f] == b;
    assert C.SlotOf(e, f, INDEX_SLOT) == b;
  }

  /** A slot of a file is that of the phase. */
  lemma SlotBack(s: State, e: C.World, f: int, i: int)
    requires WellFormed(s) && C.Sizes(e) && IntPointers(s, e) && LiveFile(s, f) && 0 <= i <= INDEX_SLOT
    ensures LiveFile(Leave(s, e), f) && Ptr(Leave(s, e), f, i) == C.SlotOf(e, f, i)
  {
    if DIRECT_BLOCK_POINTERS <= i < INDEX_SLOT && ValidBlock(e.dataBlock[f]) {
      assert IsIndex(s, e, e.dataBlock[f]);
      PointerBack(s, e, e.dataBlock[f], i - DIRECT_BLOCK_POINTERS);
    }
  }

  /** The same inodes are live, and the root directory's is as it was. */
  lemma LiveBack(s: State, w: Ledger, e: C.World)
    requires WellFormed(s) && Inv(s, w) && C.Sizes(e) && IntPointers(s, e)
    ensures var s' := Leave(s, e);
            && (forall f :: Live(s', f) <==> Live(s, f))
            && (forall f :: LiveFile(s', f) <==> LiveFile(s, f))
            && s'.inodes[ROOT_DIR_INUM] == s.inodes[ROOT_DIR_INUM]
            && (forall i :: 0 <= i <= INDEX_SLOT ==> Ptr(s', ROOT_DIR_INUM, i) == Ptr(s, ROOT_DIR_INUM, i))
  {
    hide Owners, Shapes;
    assert Live(s, ROOT_DIR_INUM);
    assert Leave(s, e).inodes[ROOT_DIR_INUM] == s.inodes[ROOT_DIR_INUM];
  }

  /** The slots of the tables are those of the phase. */
  lemma SlotsBack(s: State, w: Ledger, e: C.World, o: seq<C.Holder>)
    requires Phase(s, w, e, o) && IntPointers(s, e)
    ensures var s' := Leave(s, e);
            && (forall f, i :: LiveFile(s, f) && 0 <= i <= INDEX_SLOT ==> LiveFile(s', f) && Ptr(s', f, i) == C.SlotOf(e, f, i))
            && (forall i :: 0 <= i <= INDEX_SLOT ==> Ptr(s', ROOT_DIR_INUM, i) == Ptr(s, ROOT_DIR_INUM, i))
            && (forall f :: Live(s', f) <==> Live(s, f))
            && (forall f :: LiveFile(s', f) <==> LiveFile(s, f))
            && s'.inodes[ROOT_DIR_INUM] == s.inodes[ROOT_DIR_INUM]
  {
    hide Owners, Shapes, Root, C.Holders, S.Prefixes, C.SlotOf, Ptr, Leave;
    var s' := Leave(s, e);
    LiveBack(s, w, e);
    forall f, i | LiveFile(s, f) && 0 <= i <= INDEX_SLOT
      ensures LiveFile(s', f) && Ptr(s', f, i) == C.SlotOf(e, f, i)
    {
      SlotBack(s, e, f, i);
    }
  }

  lemma OwnersBack(s: State, w: Ledger, e: C.World, o: seq<C.Holder>)
    requires Phase(s, w, e, o) && IntPointers(s, e)
    ensures Owners(Leave(s, e), LedgerOf(s, w, e, o))
  {
    SlotsBack(s, w, e, o);
    RootSlots(s, w);
    var s' := Leave(s, e);
    var w' := LedgerOf(s, w, e, o);
    hide Leave, Ptr, C.SlotOf, S.Prefixes, Shapes, Owners, Holds;
    forall b | 0 <= b < DATA_BLOCKS && w'.owner[b].Slot?
      ensures Live(s', w'.owner[b].inode) && 0 <= w'.owner[b].index <= INDEX_SLOT
      ensures Ptr(s', w'.owner[b].inode, w'.owner[b].index) == b
    {
      if o[b].Stored? {
        assert C.SlotOf(e, o[b].f, o[b].i) == b;
        assert LiveFile(s, o[b].f);
      }
    }
    forall f, i | Live(s', f) && 0 <= i <= INDEX_SLOT && Ptr(s', f, i) != -1
      ensures ValidBlock(Ptr(s', f, i)) && w'.owner[Ptr(s', f, i)] == Slot(f, i)
    {
      if f != ROOT_DIR_INUM {
        assert LiveFile(s, f);
        assert Ptr(s', f, i) == C.SlotOf(e, f, i);
      }
    }
    assert s'.blocks == e.blocks by {
      BlocksBack(s, e);
    }
    OwnersFromSlots(s', w');
  }

  lemma BlocksBack(s: State, e: C.World)
    requires WellFormed(s) && C.Sizes(e) && IntPointers(s, e)
    ensures Leave(s, e).blocks == e.blocks
  {
  }

  lemma OwnersFromSlots(s: State, w: Ledger)
    requires WellFormed(s) && |w.owner| == DATA_BLOCKS
    requires forall b :: 0 <= b < DATA_BLOCKS ==> (s.blocks[b] == TAKEN <==> w.owner[b].Slot?)
    requires forall b :: 0 <= b < DATA_BLOCKS && w.owner[b].Slot? ==>
               && Live(s, w.owner[b].inode) && 0 <= w.owner[b].index <= INDEX_SLOT
               && Ptr(s, w.owner[b].inode, w.owner[b].index) == b
    requires forall f, i :: Live(s, f) && 0 <= i <= INDEX_SLOT && Ptr(s, f, i) != -1 ==>
               ValidBlock(Ptr(s, f, i)) && w.owner[Ptr(s, f, i)] == Slot(f, i)
    ensures Owners(s, w)
  {
  }

  /** The root directory has its block and no other slot; every other live inode is a file. */
  lemma RootSlots(s: State, w: Ledger)
    requires Inv(s, w)
    ensures Live(s, ROOT_DIR_INUM) && s.inodes[ROOT_DIR_INUM].kind == T_DIRECTORY
    ensures ValidBlock(s.inodes[ROOT_DIR_INUM].dataBlock) && Ptr(s, ROOT_DIR_INUM, INDEX_SLOT) == s.inodes[ROOT_DIR_INUM].dataBlock
    ensures forall i :: 0 <= i < INDEX_SLOT ==> Ptr(s, ROOT_DIR_INUM, i) == -1
    ensures forall f :: Live(s, f) && f != ROOT_DIR_INUM ==> LiveFile(s, f)
    ensures |w.count| == INODE_TABLE_SIZE && w.count[ROOT_DIR_INUM] == 0
  {
    assert Live(s, ROOT_DIR_INUM);
    assert forall i :: 0 <= i < FILE_BLOCKS ==> (Ptr(s, ROOT_DIR_INUM, i) != -1 <==> i < w.count[ROOT_DIR_INUM]);
  }

  /** The count says all about which slots of a file are set. */
  lemma CountShape(e: C.World, f: nat)
    requires C.Sizes(e) && S.Prefixes(e) && f < INODE_TABLE_SIZE
    ensures var n := CountFrom(e, f, 0);
            && (forall i :: 0 <= i < FILE_BLOCKS ==> (C.SlotOf(e, f, i) != -1 <==> i < n))
            && (n > DIRECT_BLOCK_POINTERS ==> e.dataBlock[f] != -1)
            && (e.dataBlock[f] != -1 ==> n >= DIRECT_BLOCK_POINTERS)
  {
    var n := CountFrom(e, f, 0);
    assert C.SlotOf(e, f, INDEX_SLOT) == e.dataBlock[f];
    assert n > DIRECT_BLOCK_POINTERS ==> C.SlotOf(e, f, DIRECT_BLOCK_POINTERS) != -1;
    assert e.dataBlock[f] == -1 ==> C.SlotOf(e, f, DIRECT_BLOCK_POINTERS) == -1;
    hide C.SlotOf;
    assert e.dataBlock[f] != -1 ==> S.LowerSet(e, f, DIRECT_BLOCK_POINTERS);
    forall i | 0 <= i < FILE_BLOCKS
      ensures C.SlotOf(e, f, i) != -1 <==> i < n
    {
      assert C.SlotOf(e, f, i) != -1 ==> S.LowerSet(e, f, i);
    }
  }

  lemma ShapesBack(s: State, w: Ledger, e: C.World, o: seq<C.Holder>)
    requires Phase(s, w, e, o) && IntPointers(s, e)
    ensures Shapes(Leave(s, e), LedgerOf(s, w, e, o))
  {
    SlotsBack(s, w, e, o);
    RootSlots(s, w);
    var s' := Leave(s, e);
    var w' := LedgerOf(s, w, e, o);
    InodesBack(s, e);
    hide Leave, Ptr, C.SlotOf, Owners, Holds, C.Holders, S.Prefixes, CountFrom, Shapes;
    forall f | LiveFile(s, f)
      ensures w'.count[f] <= FILE_BLOCKS
      ensures w'.count[f] > DIRECT_BLOCK_POINTERS ==> s'.inodes[f].dataBlock != -1
      ensures s'.inodes[f].dataBlock != -1 ==> w'.count[f] >= DIRECT_BLOCK_POINTERS
      ensures forall i :: 0 <= i < FILE_BLOCKS ==> (Ptr(s', f, i) != -1 <==> i < w'.count[f])
    {
      CountShape(e, f);
      assert w'.count[f] == CountFrom(e, f, 0);
    }
    assert !LiveFile(s, ROOT_DIR_INUM) && w'.count[ROOT_DIR_INUM] == 0;
    ShapesFromFiles(s', w');
  }

  lemma InodesBack(s: State, e: C.World)
    requires WellFormed(s) && C.Sizes(e) && IntPointers(s, e)
    ensures forall f :: LiveFile(s, f) ==> Leave(s, e).inodes[f].dataBlock == e.dataBlock[f]
    ensures forall f :: ValidInumber(f) ==> Leave(s, e).inodes[f].kind == s.inodes[f].kind
  {
  }

  lemma ShapesFromFiles(s: State, w: Ledger)
    requires WellFormed(s) && |w.count| == INODE_TABLE_SIZE && w.count[ROOT_DIR_INUM] == 0
    requires forall i :: 0 <= i < FILE_BLOCKS ==> Ptr(s, ROOT_DIR_INUM, i) == -1
    requires s.inodes[ROOT_DIR_INUM].kind == T_DIRECTORY
    requires forall f :: Live(s, f) && f != ROOT_DIR_INUM ==>
               && LiveFile(s, f) && w.count[f] <= FILE_BLOCKS
               && (w.count[f] > DIRECT_BLOCK_POINTERS ==> s.inodes[f].dataBlock != -1)
               && (s.inodes[f].dataBlock != -1 ==> w.count[f] >= DIRECT_BLOCK_POINTERS)
    requires forall f, i :: Live(s, f) && f != ROOT_DIR_INUM && 0 <= i < FILE_BLOCKS ==>
               (Ptr(s, f, i) != -1 <==> i < w.count[f])
    ensures Shapes(s, w)
  {
    hide Ptr;
  }

  lemma RootBack(s: State, w: Ledger, e: C.World, o: seq<C.Holder>)
    requires Phase(s, w, e, o) && IntPointers(s, e)
    ensures Root(Leave(s, e), LedgerOf(s, w, e, o))
  {
    SlotsBack(s, w, e, o);
    RootSlots(s, w);
    var s' := Leave(s, e);
    var r := s.inodes[ROOT_DIR_INUM].dataBlock;
    assert s'.inodes[ROOT_DIR_INUM] == s.inodes[ROOT_DIR_INUM];
    if IsIndex(s, e, r) {
      IndexHolder(s, w, e, o, r);
    }
    BlockBack(s, e, r);
    forall p | r * BLOCK_SIZE <= p < (r + 1) * BLOCK_SIZE
      ensures s.data[p] == s'.data[p]
    {
      assert s.data[p] == BlockOf(s.data, r)[p - r * BLOCK_SIZE];
      assert s'.data[p] == BlockOf(s'.data, r)[p - r * BLOCK_SIZE];
    }
    HoldsFrame(s.data, s'.data, r * BLOCK_SIZE, w.bindings);
    assert !LiveFile(s, ROOT_DIR_INUM);
    assert forall f :: Live(s, f) ==> s'.inodes[f].kind == s.inodes[f].kind;
  }

  /** The tables after a phase have an exact ledger. */
  lemma LeaveKeepsInv(s: State, w: Ledger, e: C.World, o: seq<C.Holder>)
    requires Phase(s, w, e, o) && IntPointers(s, e)
    ensures Inv(Leave(s, e), LedgerOf(s, w, e, o))
  {
    hide Owners, Shapes, Root, Leave, LedgerOf;
    OwnersBack(s, w, e, o);
    ShapesBack(s, w, e, o);
    RootBack(s, w, e, o);
  }

  /** Every mapped block of every file is still there with its bytes. */
  lemma LeaveKeepsBytes(s: State, w: Ledger, e: C.World, o: seq<C.Holder>)
    requires Phase(s, w, e, o) && IntPointers(s, e)
    ensures forall f, i :: LiveFile(s, f) && 0 <= i < FILE_BLOCKS && i < w.count[f] ==>
              FileBlock(Leave(s, e), f, i) == FileBlock(s, f, i)
  {
    SlotsBack(s, w, e, o);
    hide Leave;
    forall f, i | LiveFile(s, f) && 0 <= i < FILE_BLOCKS && i < w.count[f]
      ensures FileBlock(Leave(s, e), f, i) == FileBlock(s, f, i)
    {
      var b := Ptr(s, f, i);
      assert C.SlotOf(e, f, i) == b && o[b] == C.Stored(f, i);
      if IsIndex(s, e, b) {
        IndexHolder(s, w, e, o, b);
      }
      BlockBack(s, e, b);
    }
  }

  // ---------------------------------------------------------------------------
  // There and back
  // ---------------------------------------------------------------------------

  lemma EnteredSlots(s: State, n: nat)
    requires WellFormed(s)
    ensures forall f, i :: ValidInumber(f) && 0 <= i <= INDEX_SLOT ==>
              C.SlotOf(C.Enter(s, n), f, i) == if LiveFile(s, f) then Ptr(s, f, i) else -1
    ensures forall f :: f in C.Enter(s, n).inumbers ==> f == -1 || LiveFile(s, f)
  {
  }

  lemma DirectoryHolder(s: State, w: Ledger)
    requires Inv(s, w)
    ensures |w.owner| == DATA_BLOCKS
    ensures forall b :: 0 <= b < DATA_BLOCKS ==>
              (C.HoldersOf(w)[b] == C.Directory <==> b == s.inodes[ROOT_DIR_INUM].dataBlock)
  {
    RootSlots(s, w);
    forall b | 0 <= b < DATA_BLOCKS
      ensures C.HoldersOf(w)[b] == C.Directory <==> b == s.inodes[ROOT_DIR_INUM].dataBlock
    {
      if w.owner[b].Slot? && w.owner[b].inode == ROOT_DIR_INUM {
        assert Ptr(s, ROOT_DIR_INUM, w.owner[b].index) == b;
      }
      if b == s.inodes[ROOT_DIR_INUM].dataBlock {
        assert w.owner[Ptr(s, ROOT_DIR_INUM, INDEX_SLOT)] == Slot(ROOT_DIR_INUM, INDEX_SLOT);
      }
    }
  }

  /**
   Concurrency between sequential calls. From any state with an exact ledger,
   let any number of threads run inode_update in any interleaving until all are
   idle: the tables have an exact ledger again, the directory is the same, and
   every byte that was mapped is where it was.
   */
  lemma PhaseReturns(s: State, w: Ledger, n: nat, schedule: seq<C.Move>) returns (w': Ledger)
    requires Inv(s, w) && S.AllIdle(C.Run(C.Enter(s, n), schedule))
    ensures var e := C.Run(C.Enter(s, n), schedule);
            && C.Sizes(e) && IntPointers(s, e) && |w.count| == INODE_TABLE_SIZE
            && Inv(Leave(s, e), w') && w'.bindings == w.bindings
            && forall f, i :: LiveFile(s, f) && 0 <= i < FILE_BLOCKS && i < w.count[f] ==>
                 FileBlock(Leave(s, e), f, i) == FileBlock(s, f, i)
  {
    var e0 := C.Enter(s, n);
    C.StoreIsStart(s, w, n);
    S.StoreHasPrefixes(s, w, n);
    var o := S.PhasesCompose(e0, C.HoldersOf(w), schedule);
    var e := C.Run(e0, schedule);
    EnteredSlots(s, n);
    DirectoryHolder(s, w);
    assert Phase(s, w, e, o) by {
      hide Owners, Shapes, Root, C.Enter, C.Run, C.SlotOf, Ptr, S.Prefixes, C.HoldersOf;
      assert forall b :: 0 <= b < DATA_BLOCKS && o[b].InHand? ==> C.Hand(e.pcs[o[b].t]) == b;
      SizesOf(s, w);
    }
    hide Phase, C.Enter, C.Run, Leave, FileBlock, IntPointers, C.Holders, LedgerOf;
    PhaseIntPointers(s, w, e, o);
    LeaveKeepsInv(s, w, e, o);
    LeaveKeepsBytes(s, w, e, o);
    w' := LedgerOf(s, w, e, o);
  }

  lemma SizesOf(s: State, w: Ledger)
    requires Inv(s, w)
    ensures |w.count| == INODE_TABLE_SIZE && |w.owner| == DATA_BLOCKS
  {
  }
}
