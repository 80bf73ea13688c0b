/**
 One thread alone in inode_update does what the sequential inode_update does: the
 steps of ConcurrentUpdate refine StoreModel.InodeUpdate.
 */
module ConcurrentSolo {
  import opened Memory
  import opened Directory
  import opened Options
  import opened StoreModel
  import opened ConcurrentUpdate
  import O = StoreOwnership
  import U = StoreUpdate
  import R = ConcurrentReturn

  // ---------------------------------------------------------------------------
  // Steps of one thread
  // ---------------------------------------------------------------------------

  /** The state after n steps of thread 0, with the same choice each time. */
  function Solo(s: World, c: Choice, n: nat): World
    decreases n
  {
    if n == 0 then s else Solo(Run(s, [Move(0, c)]), c, n - 1)
  }

  lemma {:induction false} SoloSplit(s: World, c: Choice, a: nat, b: nat)
    ensures Solo(s, c, a + b) == Solo(Solo(s, c, a), c, b)
    decreases a
  {
    if a > 0 {
      SoloSplit(Run(s, [Move(0, c)]), c, a - 1, b);
    }
  }

  lemma SoloOne(s: World, c: Choice)
    requires Sizes(s) && |s.pcs| == 1 && Next(s, 0, c).Some?
    ensures Solo(s, c, 1) == Next(s, 0, c).value
  {
    hide Next;
    assert [Move(0, c)][1..] == [];
    assert Run(s, [Move(0, c)]) == Run(Next(s, 0, c).value, []);
    assert Solo(s, c, 1) == Solo(Run(s, [Move(0, c)]), c, 0);
  }

  /** One step, then n more. */
  lemma SoloThen(s: World, c: Choice, n: nat)
    requires Sizes(s) && |s.pcs| == 1 && Next(s, 0, c).Some?
    ensures Solo(s, c, 1 + n) == Solo(Next(s, 0, c).value, c, n)
  {
    hide Next, Run;
    SoloOne(s, c);
    SoloSplit(s, c, 1, n);
  }

  /** The thread is alone, at pc, inside its two locks, and nobody holds the table's. */
  predicate Alone(s: World, pc: Pc) {
    && Sizes(s) && s.pcs == [pc] && s.dbLock == NONE && !pc.Idle? && pc.h < MAX_OPEN_FILES
    && ValidInumber(s.inumbers[pc.h])
  }

  lemma MoveAlone(s: World, pc: Pc)
    requires |s.pcs| == 1
    ensures To(s, 0, pc) == s.(pcs := [pc])
  {
    assert s.pcs[0 := pc] == [pc];
  }

  /** The scan of data_block_alloc takes the first FREE block from j on, or comes back with -1. */
  lemma {:induction false} ScanAlone(s: World, c: Choice, h: nat, last: int, site: Site, j: nat) returns (n: nat)
    requires Alone(s, Scan(h, last, site, j)) && j <= DATA_BLOCKS
    ensures var b := FirstFree(s.blocks, j);
            Solo(s, c, n) == s.(blocks := if b == -1 then s.blocks else s.blocks[b := TAKEN],
                                pcs := [AfterAlloc(h, last, site, b)])
    decreases DATA_BLOCKS - j
  {
    if j == DATA_BLOCKS {
      SoloOne(s, c);
      n := 1;
    } else {
      var s1 := s.(dbLock := 0, pcs := [Locked(h, last, site, j)]);
      MoveAlone(s.(dbLock := 0), Locked(h, last, site, j));
      assert Next(s, 0, c) == Some(s1);
      var got := s.blocks[j] == FREE;
      var s2 := s1.(blocks := if got then s.blocks[j := TAKEN] else s.blocks, pcs := [Unlocking(h, last, site, j, got)]);
      MoveAlone(s1.(blocks := s2.blocks), s2.pcs[0]);
      assert Next(s1, 0, c) == Some(s2);
      var s3 := s2.(dbLock := NONE, pcs := [if got then AfterAlloc(h, last, site, j) else Scan(h, last, site, j + 1)]);
      MoveAlone(s2.(dbLock := NONE), s3.pcs[0]);
      assert Next(s2, 0, c) == Some(s3);
      hide Next;
      var m := 0;
      if !got {
        m := ScanAlone(s3, c, h, last, site, j + 1);
      }
      SoloThen(s2, c, m);
      SoloThen(s1, c, 1 + m);
      SoloThen(s, c, 1 + (1 + m));
      n := 1 + (1 + (1 + m));
    }
  }

  /** The fresh index block is filled with -1 from pointer k on. */
  lemma {:induction false} FillAlone(s: World, c: Choice, h: nat, last: int, b: nat, k: nat) returns (n: nat)
    requires Alone(s, Fill(h, last, b, k)) && b < DATA_BLOCKS && k <= MAX_BLOCK_POINTERS
    requires forall i :: 0 <= i < k ==> s.pointers[b][i] == -1
    ensures Solo(s, c, n) == s.(pointers := s.pointers[b := seq(MAX_BLOCK_POINTERS, _ => -1)],
                                pcs := [Store(h, last, IndexSite, b)])
    decreases MAX_BLOCK_POINTERS - k
  {
    if k == MAX_BLOCK_POINTERS {
      SoloOne(s, c);
      n := 1;
      assert s.pointers[b] == seq(MAX_BLOCK_POINTERS, _ => -1);
      assert s.pointers[b := s.pointers[b]] == s.pointers;
    } else {
      var s1 := s.(pointers := s.pointers[b := s.pointers[b][k := -1]], pcs := [Fill(h, last, b, k + 1)]);
      MoveAlone(s.(pointers := s1.pointers), s1.pcs[0]);
      assert Next(s, 0, c) == Some(s1);
      hide Next;
      n := FillAlone(s1, c, h, last, b, k + 1);
      SoloThen(s, c, n);
      n := 1 + n;
      assert s1.pointers[b := seq(MAX_BLOCK_POINTERS, _ => -1)] == s.pointers[b := seq(MAX_BLOCK_POINTERS, _ => -1)];
    }
  }

  // ---------------------------------------------------------------------------
  // The memory of the block store under the thread's steps
  // ---------------------------------------------------------------------------

  /** Handle h is open on a live file. */
  predicate Handled(s: State, h: nat) {
    WellFormed(s) && h < MAX_OPEN_FILES && s.fileTs[h] == TAKEN && O.LiveFile(s, s.files[h].inumber)
  }

  /** The thread at pc, with the lock of handle h and of its inode, over the memory of s. */
  ghost function Inside(s: State, h: nat, pc: Pc): World
    requires WellFormed(s) && h < MAX_OPEN_FILES && ValidInumber(s.files[h].inumber)
  {
    var e := Enter(s, 1);
    e.(handleLock := e.handleLock[h := 0], inodeLock := e.inodeLock[s.files[h].inumber := 0], pcs := [pc])
  }

  lemma InsideFacts(s: State, h: nat, pc: Pc)
    requires Handled(s, h) && !pc.Idle? && pc.h == h
    ensures var e := Inside(s, h, pc);
            var f := s.files[h].inumber;
            && Alone(e, pc) && e.inumbers[h] == f && e.blocks == s.blocks && e.handleLock[h] == 0 && e.inodeLock[f] == 0
            && e.direct[f] == s.inodes[f].direct && e.dataBlock[f] == s.inodes[f].dataBlock
            && (forall b, j :: 0 <= b < DATA_BLOCKS && 0 <= j < MAX_BLOCK_POINTERS ==>
                  e.pointers[b][j] == ReadInt(s.data, PointerAt(b, j)))
  {
  }

  lemma EnterBlocks(s: State, blocks: seq<Allocation>)
    requires WellFormed(s) && |blocks| == DATA_BLOCKS
    ensures Enter(s.(blocks := blocks), 1) == Enter(s, 1).(blocks := blocks)
  {
    var s' := s.(blocks := blocks);
    assert forall f :: ValidInumber(f) ==> (O.LiveFile(s', f) <==> O.LiveFile(s, f));
    assert Enter(s', 1).direct == Enter(s, 1).direct;
    assert Enter(s', 1).dataBlock == Enter(s, 1).dataBlock;
    assert Enter(s', 1).pointers == Enter(s, 1).pointers;
    assert Enter(s', 1).inumbers == Enter(s, 1).inumbers;
  }

  lemma EnterDirect(s: State, f: nat, i: nat, b: int)
    requires WellFormed(s) && f < INODE_TABLE_SIZE && O.LiveFile(s, f) && i < DIRECT_BLOCK_POINTERS
    ensures var e := Enter(s, 1);
            Enter(SetDirect(s, f, i, b), 1) == e.(direct := e.direct[f := e.direct[f][i := b]])
  {
    var e, s' := Enter(s, 1), SetDirect(s, f, i, b);
    assert forall g :: ValidInumber(g) ==> (O.LiveFile(s', g) <==> O.LiveFile(s, g));
    assert Enter(s', 1).direct == e.direct[f := e.direct[f][i := b]];
    assert Enter(s', 1).dataBlock == e.dataBlock;
    assert Enter(s', 1).pointers == e.pointers;
    assert Enter(s', 1).inumbers == e.inumbers;
  }

  lemma EnterDataBlock(s: State, f: nat, b: int)
    requires WellFormed(s) && f < INODE_TABLE_SIZE && O.LiveFile(s, f)
    ensures var e := Enter(s, 1);
            Enter(SetDataBlock(s, f, b), 1) == e.(dataBlock := e.dataBlock[f := b])
  {
    var e, s' := Enter(s, 1), SetDataBlock(s, f, b);
    assert forall g :: ValidInumber(g) ==> (O.LiveFile(s', g) <==> O.LiveFile(s, g));
    assert Enter(s', 1).direct == e.direct;
    assert Enter(s', 1).dataBlock == e.dataBlock[f := b];
    assert Enter(s', 1).pointers == e.pointers;
    assert Enter(s', 1).inumbers == e.inumbers;
  }

  /** New bytes: only the pointers differ. */
  lemma EnterData(s: State, data: seq<byte>, pointers: seq<seq<int>>)
    requires WellFormed(s) && |data| == DATA_SIZE && |pointers| == DATA_BLOCKS
    requires forall b :: 0 <= b < DATA_BLOCKS ==> |pointers[b]| == MAX_BLOCK_POINTERS
    requires forall b, j :: 0 <= b < DATA_BLOCKS && 0 <= j < MAX_BLOCK_POINTERS ==>
               pointers[b][j] == ReadInt(data, PointerAt(b, j))
    ensures Enter(s.(data := data), 1) == Enter(s, 1).(pointers := pointers)
  {
    var e, s' := Enter(s, 1), s.(data := data);
    assert forall g :: ValidInumber(g) ==> (O.LiveFile(s', g) <==> O.LiveFile(s, g));
    assert Enter(s', 1).direct == e.direct;
    assert Enter(s', 1).dataBlock == e.dataBlock;
    assert Enter(s', 1).inumbers == e.inumbers;
    forall b | 0 <= b < DATA_BLOCKS
      ensures Enter(s', 1).pointers[b] == pointers[b]
    {
      assert forall j :: 0 <= j < MAX_BLOCK_POINTERS ==> Enter(s', 1).pointers[b][j] == ReadInt(data, PointerAt(b, j));
    }
    assert Enter(s', 1).pointers == pointers;
  }

  /** The other blocks' pointers survive a change inside one block. */
  lemma OtherBlocks(data: seq<byte>, data': seq<byte>, blk: nat)
    requires |data| == |data'| == DATA_SIZE && ValidBlock(blk)
    requires forall p :: 0 <= p < DATA_SIZE && !(blk * BLOCK_SIZE <= p < (blk + 1) * BLOCK_SIZE) ==> data'[p] == data[p]
    ensures forall b, j :: 0 <= b < DATA_BLOCKS && b != blk && 0 <= j < MAX_BLOCK_POINTERS ==>
              ReadInt(data', PointerAt(b, j)) == ReadInt(data, PointerAt(b, j))
  {
    forall b, j | 0 <= b < DATA_BLOCKS && b != blk && 0 <= j < MAX_BLOCK_POINTERS
      ensures ReadInt(data', PointerAt(b, j)) == ReadInt(data, PointerAt(b, j))
    {
      ReadIntFrame(data, data', PointerAt(b, j));
    }
  }

  lemma EnterPointer(s: State, blk: nat, j: nat, b: int)
    requires WellFormed(s) && blk < DATA_BLOCKS && j < MAX_BLOCK_POINTERS && IsInt(b)
    ensures var e := Enter(s, 1);
            Enter(SetPointer(s, blk, j, b), 1) == e.(pointers := e.pointers[blk := e.pointers[blk][j := b]])
  {
    var e, data := Enter(s, 1), WriteInt(s.data, PointerAt(blk, j), b);
    OtherBlocks(s.data, data, blk);
    forall i | 0 <= i < MAX_BLOCK_POINTERS
      ensures ReadInt(data, PointerAt(blk, i)) == e.pointers[blk][j := b][i]
    {
      O.OtherPointers(s.data, blk, j, b, i);
    }
    EnterData(s, data, e.pointers[blk := e.pointers[blk][j := b]]);
  }

  lemma EnterEmptied(s: State, blk: nat)
    requires WellFormed(s) && blk < DATA_BLOCKS
    ensures var e := Enter(s, 1);
            Enter(s.(data := Splice(s.data, blk * BLOCK_SIZE, EmptyPointers())), 1) ==
            e.(pointers := e.pointers[blk := seq(MAX_BLOCK_POINTERS, _ => -1)])
  {
    var e, data := Enter(s, 1), Splice(s.data, blk * BLOCK_SIZE, EmptyPointers());
    OtherBlocks(s.data, data, blk);
    forall i | 0 <= i < MAX_BLOCK_POINTERS
      ensures ReadInt(data, PointerAt(blk, i)) == -1
    {
      O.EmptyPointersAreEmpty(s.data, blk, i);
    }
    EnterData(s, data, e.pointers[blk := seq(MAX_BLOCK_POINTERS, _ => -1)]);
  }

  // ---------------------------------------------------------------------------
  // The parts of inode_update
  // ---------------------------------------------------------------------------

  lemma AllocAlone(s: State, c: Choice, h: nat, last: int, site: Site) returns (n: nat)
    requires Handled(s, h)
    ensures var (s1, b) := DataBlockAlloc(s);
            Handled(s1, h) && Solo(Inside(s, h, Scan(h, last, site, 0)), c, n) == Inside(s1, h, AfterAlloc(h, last, site, b))
  {
    hide Solo, Enter;
    InsideFacts(s, h, Scan(h, last, site, 0));
    n := ScanAlone(Inside(s, h, Scan(h, last, site, 0)), c, h, last, site, 0);
    EnterBlocks(s, DataBlockAlloc(s).0.blocks);
    assert s.(blocks := s.blocks) == s;
  }

  /** A missing direct pointer is filled. */
  lemma PointAlone(s: State, c: Choice, h: nat, last: int, i: nat) returns (n: nat)
    requires Handled(s, h) && i <= last && i < DIRECT_BLOCK_POINTERS && s.inodes[s.files[h].inumber].direct[i] == -1
    ensures var (s1, b) := DataBlockAlloc(s);
            var s2 := SetDirect(s1, s.files[h].inumber, i, b);
            Handled(s2, h) && Solo(Inside(s, h, Direct(h, last, i)), c, n) == Inside(s2, h, Direct(h, last, i + 1))
  {
    hide Solo, Enter;
    var f := s.files[h].inumber;
    var e := Inside(s, h, Direct(h, last, i));
    InsideFacts(s, h, Direct(h, last, i));
    var (s1, b) := DataBlockAlloc(s);
    MoveAlone(e, Scan(h, last, DirectSite(i), 0));
    var a := AllocAlone(s, c, h, last, DirectSite(i));
    var e1 := Inside(s1, h, Store(h, last, DirectSite(i), b));
    InsideFacts(s1, h, Store(h, last, DirectSite(i), b));
    EnterDirect(s1, f, i, b);
    MoveAlone(e1.(direct := e1.direct[f := e1.direct[f][i := b]]), Direct(h, last, i + 1));
    SoloOne(e1, c);
    SoloSplit(Inside(s, h, Scan(h, last, DirectSite(i), 0)), c, a, 1);
    SoloThen(e, c, a + 1);
    n := 1 + (a + 1);
  }

  /** The loop over the direct pointers. */
  lemma {:induction false} DirectAlone(s: State, c: Choice, h: nat, last: int, i: nat) returns (n: nat)
    requires Handled(s, h)
    ensures var s' := FillDirect(s, s.files[h].inumber, i, last);
            && Handled(s', h)
            && Solo(Inside(s, h, Direct(h, last, i)), c, n) ==
               Inside(s', h, if last >= DIRECT_BLOCK_POINTERS then Index(h, last) else LeaveInode(h))
    decreases DIRECT_BLOCK_POINTERS - i
  {
    hide Solo, Enter, SetDirect, DataBlockAlloc;
    var f := s.files[h].inumber;
    var e := Inside(s, h, Direct(h, last, i));
    InsideFacts(s, h, Direct(h, last, i));
    if i > last || i >= DIRECT_BLOCK_POINTERS {
      MoveAlone(e, if last >= DIRECT_BLOCK_POINTERS then Index(h, last) else LeaveInode(h));
      SoloOne(e, c);
      n := 1;
    } else if s.inodes[f].direct[i] == -1 {
      var a := PointAlone(s, c, h, last, i);
      var s2 := SetDirect(DataBlockAlloc(s).0, f, i, DataBlockAlloc(s).1);
      var m := DirectAlone(s2, c, h, last, i + 1);
      SoloSplit(e, c, a, m);
      n := a + m;
    } else {
      MoveAlone(e, Direct(h, last, i + 1));
      var m := DirectAlone(s, c, h, last, i + 1);
      SoloThen(e, c, m);
      n := 1 + m;
    }
  }

  /** The index block is allocated when it is missing. */
  lemma IndexAlone(s: State, c: Choice, h: nat, last: int) returns (n: nat)
    requires Handled(s, h)
    ensures var s' := EnsureIndexBlock(s, s.files[h].inumber);
            && Handled(s', h)
            && Solo(Inside(s, h, Index(h, last)), c, n) == Inside(s', h, Pointers(h, last, 0))
  {
    hide Solo, Enter;
    var f := s.files[h].inumber;
    var e := Inside(s, h, Index(h, last));
    InsideFacts(s, h, Index(h, last));
    if s.inodes[f].dataBlock != -1 {
      MoveAlone(e, Pointers(h, last, 0));
      SoloOne(e, c);
      n := 1;
    } else {
      var (s1, b) := DataBlockAlloc(s);
      MoveAlone(e, Scan(h, last, IndexSite, 0));
      var a := AllocAlone(s, c, h, last, IndexSite);
      var e1 := Inside(s1, h, AfterAlloc(h, last, IndexSite, b));
      var m := StoreIndexAlone(s1, c, h, last, b);
      SoloSplit(Inside(s, h, Scan(h, last, IndexSite, 0)), c, a, m);
      SoloThen(e, c, a + m);
      n := 1 + (a + m);
    }
  }

  /** The fresh index block is emptied and stored, or -1 is. */
  lemma StoreIndexAlone(s: State, c: Choice, h: nat, last: int, b: int) returns (n: nat)
    requires Handled(s, h) && -1 <= b < DATA_BLOCKS
    ensures var f := s.files[h].inumber;
            var s1 := if b == -1 then s else s.(data := Splice(s.data, b * BLOCK_SIZE, EmptyPointers()));
            && Handled(s1, h) && Handled(SetDataBlock(s1, f, b), h)
            && Solo(Inside(s, h, AfterAlloc(h, last, IndexSite, b)), c, n) ==
               Inside(SetDataBlock(s1, f, b), h, Pointers(h, last, 0))
  {
    hide Solo, Enter;
    var f := s.files[h].inumber;
    var e := Inside(s, h, AfterAlloc(h, last, IndexSite, b));
    var s1 := if b == -1 then s else s.(data := Splice(s.data, b * BLOCK_SIZE, EmptyPointers()));
    var e1 := Inside(s1, h, Store(h, last, IndexSite, b));
    InsideFacts(s, h, AfterAlloc(h, last, IndexSite, b));
    InsideFacts(s1, h, Store(h, last, IndexSite, b));
    var a := 0;
    if b != -1 {
      a := FillAlone(e, c, h, last, b, 0);
      EnterEmptied(s, b);
    }
    EnterDataBlock(s1, f, b);
    MoveAlone(e1.(dataBlock := e1.dataBlock[f := b]), Pointers(h, last, 0));
    SoloOne(e1, c);
    assert Solo(e, c, a) == e1 by { if b == -1 { SoloNone(e, c); } }
    SoloSplit(e, c, a, 1);
    n := a + 1;
  }

  lemma SoloNone(s: World, c: Choice)
    ensures Solo(s, c, 0) == s
  {
  }

  /** The result of the allocation is stored in the index block. */
  lemma StorePointerAlone(s: State, c: Choice, h: nat, last: int, j: nat, b: int)
    requires Handled(s, h) && ValidBlock(s.inodes[s.files[h].inumber].dataBlock) && j < MAX_BLOCK_POINTERS && IsInt(b)
    ensures var s2 := SetPointer(s, s.inodes[s.files[h].inumber].dataBlock, j, b);
            && Handled(s2, h) && s2.inodes == s.inodes
            && Solo(Inside(s, h, Store(h, last, PointerSite(j), b)), c, 1) == Inside(s2, h, Pointers(h, last, j + 1))
  {
    hide Solo, Enter;
    var blk := s.inodes[s.files[h].inumber].dataBlock;
    var e1 := Inside(s, h, Store(h, last, PointerSite(j), b));
    InsideFacts(s, h, Store(h, last, PointerSite(j), b));
    EnterPointer(s, blk, j, b);
    MoveAlone(e1.(pointers := e1.pointers[blk := e1.pointers[blk][j := b]]), Pointers(h, last, j + 1));
    SoloOne(e1, c);
  }

  /** A missing pointer of the index block is filled. */
  lemma PointerAlone(s: State, c: Choice, h: nat, last: int, j: nat) returns (n: nat)
    requires Handled(s, h) && ValidBlock(s.inodes[s.files[h].inumber].dataBlock)
    requires j <= last - DIRECT_BLOCK_POINTERS && j < MAX_BLOCK_POINTERS
    requires ReadInt(s.data, PointerAt(s.inodes[s.files[h].inumber].dataBlock, j)) == -1
    ensures IsInt(DataBlockAlloc(s).1)
    ensures var (s1, b) := DataBlockAlloc(s);
            var s2 := SetPointer(s1, s.inodes[s.files[h].inumber].dataBlock, j, b);
            && Handled(s2, h) && s2.inodes == s.inodes
            && Solo(Inside(s, h, Pointers(h, last, j)), c, n) == Inside(s2, h, Pointers(h, last, j + 1))
  {
    hide Solo, Enter, SetPointer;
    var e := Inside(s, h, Pointers(h, last, j));
    InsideFacts(s, h, Pointers(h, last, j));
    var (s1, b) := DataBlockAlloc(s);
    MoveAlone(e, Scan(h, last, PointerSite(j), 0));
    var a := AllocAlone(s, c, h, last, PointerSite(j));
    StorePointerAlone(s1, c, h, last, j, b);
    SoloSplit(Inside(s, h, Scan(h, last, PointerSite(j), 0)), c, a, 1);
    SoloThen(e, c, a + 1);
    n := 1 + (a + 1);
  }

  /** At the end of the loop, or at a pointer that is set. */
  lemma PassAlone(s: State, c: Choice, h: nat, last: int, j: nat)
    requires Handled(s, h) && ValidBlock(s.inodes[s.files[h].inumber].dataBlock)
    ensures var e := Solo(Inside(s, h, Pointers(h, last, j)), c, 1);
            if j > last - DIRECT_BLOCK_POINTERS || j >= MAX_BLOCK_POINTERS then e == Inside(s, h, LeaveInode(h))
            else ReadInt(s.data, PointerAt(s.inodes[s.files[h].inumber].dataBlock, j)) != -1 ==>
                   e == Inside(s, h, Pointers(h, last, j + 1))
  {
    hide Solo, Enter;
    var e := Inside(s, h, Pointers(h, last, j));
    InsideFacts(s, h, Pointers(h, last, j));
    MoveAlone(e, LeaveInode(h));
    MoveAlone(e, Pointers(h, last, j + 1));
    SoloOne(e, c);
  }

  /** The loop over the pointers of the index block. */
  lemma {:induction false} PointersAlone(s: State, c: Choice, h: nat, last: int, j: nat) returns (n: nat)
    requires Handled(s, h) && ValidBlock(s.inodes[s.files[h].inumber].dataBlock)
    ensures var s' := FillPointers(s, s.inodes[s.files[h].inumber].dataBlock, j, last - DIRECT_BLOCK_POINTERS);
            && Handled(s', h) && s'.inodes == s.inodes
            && Solo(Inside(s, h, Pointers(h, last, j)), c, n) == Inside(s', h, LeaveInode(h))
    decreases MAX_BLOCK_POINTERS - j
  {
    hide Solo, Enter, SetPointer, DataBlockAlloc, Inside;
    var blk := s.inodes[s.files[h].inumber].dataBlock;
    var e := Inside(s, h, Pointers(h, last, j));
    PassAlone(s, c, h, last, j);
    if j > last - DIRECT_BLOCK_POINTERS || j >= MAX_BLOCK_POINTERS {
      n := 1;
    } else {
      var a, s2 := 1, s;
      if ReadInt(s.data, PointerAt(blk, j)) == -1 {
        a := PointerAlone(s, c, h, last, j);
        s2 := SetPointer(DataBlockAlloc(s).0, blk, j, DataBlockAlloc(s).1);
      }
      var m := PointersAlone(s2, c, h, last, j + 1);
      SoloSplit(e, c, a, m);
      n := a + m;
    }
  }

  // ---------------------------------------------------------------------------
  // The whole call
  // ---------------------------------------------------------------------------

  /** From outside to the first loop, with both locks taken. */
  lemma EnterAlone(s: State, h: nat) returns (n: nat)
    requires Handled(s, h)
    ensures var last := s.files[h].boffset;
            Solo(Enter(s, 1), Choice(h, last), n) == Inside(s, h, Direct(h, last, 0))
  {
    hide Solo;
    var last := s.files[h].boffset;
    var c := Choice(h, last);
    var e := Enter(s, 1);
    var e1, e2 := e.(pcs := [WantHandle(h)]), e.(handleLock := e.handleLock[h := 0], pcs := [WantInode(h)]);
    MoveAlone(e, WantHandle(h));
    MoveAlone(e1.(handleLock := e2.handleLock), WantInode(h));
    MoveAlone(e2.(inodeLock := e2.inodeLock[s.files[h].inumber := 0]), Direct(h, last, 0));
    SoloOne(e2, c);
    SoloThen(e1, c, 1);
    SoloThen(e, c, 2);
    n := 3;
  }

  /** Both locks are given back. */
  lemma LeaveAlone(s: State, c: Choice, h: nat)
    requires Handled(s, h)
    ensures Solo(Inside(s, h, LeaveInode(h)), c, 2) == Enter(s, 1)
  {
    hide Solo;
    var f := s.files[h].inumber;
    var e := Enter(s, 1);
    var e1, e2 := Inside(s, h, LeaveInode(h)), e.(handleLock := e.handleLock[h := 0], pcs := [LeaveHandle(h)]);
    InsideFacts(s, h, LeaveInode(h));
    assert e1.inodeLock[f := NONE] == e.inodeLock;
    assert e2.handleLock[h := NONE] == e.handleLock;
    assert e.pcs == [Idle];
    MoveAlone(e1.(inodeLock := e.inodeLock), LeaveHandle(h));
    MoveAlone(e2.(handleLock := e.handleLock), Idle);
    SoloOne(e2, c);
    SoloThen(e1, c, 1);
  }

  /** The index block is needed and there is none: it is NULL and is dereferenced. */
  predicate NoIndexBlock(s: State, h: nat)
    requires WellFormed(s) && h < MAX_OPEN_FILES && ValidInumber(s.files[h].inumber)
  {
    s.files[h].boffset >= DIRECT_BLOCK_POINTERS && !ValidBlock(s.inodes[s.files[h].inumber].dataBlock)
  }

  /** The part of the call behind the direct pointers. */
  lemma IndirectAlone(s: State, c: Choice, h: nat) returns (n: nat)
    requires Handled(s, h) && s.files[h].boffset >= DIRECT_BLOCK_POINTERS
    ensures var last := s.files[h].boffset;
            var s2 := EnsureIndexBlock(s, s.files[h].inumber);
            var blk := s2.inodes[s.files[h].inumber].dataBlock;
            && Handled(s2, h)
            && (ValidBlock(blk) ==>
                  var s3 := FillPointers(s2, blk, 0, last - DIRECT_BLOCK_POINTERS);
                  Handled(s3, h) && s3.inodes == s2.inodes)
            && Solo(Inside(s, h, Index(h, last)), c, n) ==
               if ValidBlock(blk) then Inside(FillPointers(s2, blk, 0, last - DIRECT_BLOCK_POINTERS), h, LeaveInode(h))
               else Inside(s2, h, Crashed(h))
  {
    hide Solo, Enter, EnsureIndexBlock, FillPointers;
    var last := s.files[h].boffset;
    var s2 := EnsureIndexBlock(s, s.files[h].inumber);
    var a := IndexAlone(s, c, h, last);
    var m := 1;
    if ValidBlock(s2.inodes[s.files[h].inumber].dataBlock) {
      m := PointersAlone(s2, c, h, last, 0);
    } else {
      InsideFacts(s2, h, Pointers(h, last, 0));
      MoveAlone(Inside(s2, h, Pointers(h, last, 0)), Crashed(h));
      SoloOne(Inside(s2, h, Pointers(h, last, 0)), c);
    }
    SoloSplit(Inside(s, h, Index(h, last)), c, a, m);
    n := a + m;
  }

  /**
   The sequential function is what a lone thread does: from every state and for
   every open handle, the steps of one thread end outside, with all locks free,
   over exactly the memory InodeUpdate leaves, or at the dereference of a missing
   index block.
   */
  lemma SoloUpdate(s: State, h: nat) returns (n: nat)
    requires Handled(s, h)
    ensures var s' := InodeUpdate(s, h).0;
            && Handled(s', h)
            && Solo(Enter(s, 1), Choice(h, s.files[h].boffset), n) ==
               if NoIndexBlock(s', h) then Inside(s', h, Crashed(h)) else Enter(s', 1)
  {
    hide Solo, Enter, FillDirect, EnsureIndexBlock, FillPointers;
    var last := s.files[h].boffset;
    var c := Choice(h, last);
    var f := s.files[h].inumber;
    var s1 := FillDirect(s, f, 0, last);
    var a := EnterAlone(s, h);
    var m := DirectAlone(s, c, h, last, 0);
    SoloSplit(Enter(s, 1), c, a, m);
    n := a + m;
    if last >= DIRECT_BLOCK_POINTERS {
      var k := IndirectAlone(s1, c, h);
      SoloSplit(Enter(s, 1), c, n, k);
      n := n + k;
      var s2 := EnsureIndexBlock(s1, f);
      if ValidBlock(s2.inodes[f].dataBlock) {
        LeaveAlone(InodeUpdate(s, h).0, c, h);
        SoloSplit(Enter(s, 1), c, n, 2);
        n := n + 2;
      }
    } else {
      LeaveAlone(s1, c, h);
      SoloSplit(Enter(s, 1), c, n, 2);
      n := n + 2;
    }
  }

  /** The thread is through, the blocks up to the position are mapped, and only the missing ones were taken. */
  ghost predicate MappedAlone(s: State, w: O.Ledger, h: nat, e: World)
    requires O.Inv(s, w) && Handled(s, h)
  {
    var f := s.files[h].inumber;
    var t := s.files[h].boffset + 1;
    && Sizes(e) && e.pcs == [Idle]
    && O.FreeCount(e.blocks) == O.FreeCount(s.blocks) - U.Missing(s, w, f, t)
    && (forall i :: 0 <= i < FILE_BLOCKS ==> (SlotOf(e, f, i) != -1 <==> i < w.count[f] || i < t))
  }

  /**
   What a lone thread achieves, in counts: with enough free blocks it comes out
   with the blocks up to its position mapped; without, it stops at the missing
   index block exactly when the free blocks are used up by the direct pointers.
   */
  lemma SoloCounts(s: State, w: O.Ledger, h: nat) returns (n: nat)
    requires O.Inv(s, w) && Handled(s, h) && 0 <= s.files[h].boffset < FILE_BLOCKS
    ensures var f := s.files[h].inumber;
            var t := s.files[h].boffset + 1;
            var free := O.FreeCount(s.blocks);
            var e := Solo(Enter(s, 1), Choice(h, s.files[h].boffset), n);
            if free >= U.Missing(s, w, f, t) then MappedAlone(s, w, h, e)
            else e.pcs == [if t > DIRECT_BLOCK_POINTERS && s.inodes[f].dataBlock == -1
                                && w.count[f] + free <= DIRECT_BLOCK_POINTERS
                           then Crashed(h) else Idle]
  {
    n := SoloUpdate(s, h);
    var w' := U.InodeUpdateEffect(s, w, h);
    hide Solo, InodeUpdate, U.Balanced;
    var f, s' := s.files[h].inumber, InodeUpdate(s, h).0;
    U.CountFacts(s, w, s', w', f);
    hide O.Inv;
    EnteredCount(s', w', f);
  }

  lemma EnteredCount(s: State, w: O.Ledger, f: nat)
    requires O.Inv(s, w) && O.LiveFile(s, f)
    ensures |w.count| == INODE_TABLE_SIZE
    ensures forall i :: 0 <= i < FILE_BLOCKS ==> (SlotOf(Enter(s, 1), f, i) != -1 <==> i < w.count[f])
  {
    R.EnteredSlots(s, 1);
    hide SlotOf, Enter, O.Ptr, O.Owners, O.Root;
  }
}
