/**
 Whole sequential runs of the block store: from tfs_init, any sequence of open,
 close, write and read keeps the ledger exact. No block has two owners, none is
 lost, and free blocks and owned blocks always add up to 1024.
 */
module StoreRuns {
  import opened Memory
  import opened Directory
  import opened StoreModel
  import opened Numbering
  import opened StoreOwnership
  import opened StoreUpdate
  import opened StoreWrite
  import opened StoreSplice
  import opened StoreRead
  import opened StoreOpen

  // ---------------------------------------------------------------------------
  // Accounting
  // ---------------------------------------------------------------------------

  /** The blocks owned by the first n inodes. */
  function TotalUsed(s: State, w: Ledger, n: nat): nat
    requires WellFormed(s) && n <= INODE_TABLE_SIZE && |w.count| == INODE_TABLE_SIZE
  {
    if n == 0 then 0
    else TotalUsed(s, w, n - 1) + (if Live(s, n - 1) then Used(s, w, n - 1) else 0)
  }

  function UsedIfLive(s: State, w: Ledger, f: nat): nat
    requires WellFormed(s) && f < INODE_TABLE_SIZE && |w.count| == INODE_TABLE_SIZE
  {
    if Live(s, f) then Used(s, w, f) else 0
  }

  lemma {:induction false} TotalChange(s: State, w: Ledger, s': State, w': Ledger, f: nat, n: nat)
    requires WellFormed(s) && WellFormed(s') && n <= INODE_TABLE_SIZE && f < INODE_TABLE_SIZE
    requires |w.count| == |w'.count| == INODE_TABLE_SIZE
    requires forall g: nat :: g < INODE_TABLE_SIZE && g != f ==> UsedIfLive(s', w', g) == UsedIfLive(s, w, g)
    ensures TotalUsed(s', w', n) ==
            TotalUsed(s, w, n) + (if f < n then UsedIfLive(s', w', f) - UsedIfLive(s, w, f) else 0)
  {
    if n > 0 {
      TotalChange(s, w, s', w', f, n - 1);
      assert n - 1 != f ==> UsedIfLive(s', w', n - 1) == UsedIfLive(s, w, n - 1);
    }
  }

  // ---------------------------------------------------------------------------
  // The invariant of runs
  // ---------------------------------------------------------------------------

  ghost predicate AllSized(s: State, w: Ledger)
    requires WellFormed(s) && |w.count| == INODE_TABLE_SIZE
  {
    forall f :: LiveFile(s, f) ==> SizedAt(s, w, f)
  }

  /** Every open handle leads to a live file. */
  ghost predicate OpenHandles(s: State)
    requires WellFormed(s)
  {
    forall h :: 0 <= h < MAX_OPEN_FILES && s.fileTs[h] == TAKEN ==> LiveFile(s, s.files[h].inumber)
  }

  ghost predicate Accounted(s: State, w: Ledger)
    requires WellFormed(s) && |w.count| == INODE_TABLE_SIZE
  {
    FreeCount(s.blocks) + TotalUsed(s, w, INODE_TABLE_SIZE) == DATA_BLOCKS
  }

  ghost predicate RunInv(s: State, w: Ledger) {
    && WellFormed(s) && |w.count| == INODE_TABLE_SIZE
    && Inv(s, w) && AllSized(s, w) && OpenHandles(s) && Accounted(s, w)
  }

  /** The blocks: each TAKEN one is reached by a pointer slot of a live inode, and by one only. */
  ghost predicate NoAliasNoLeak(s: State)
    requires WellFormed(s)
  {
    && (forall f, i :: Live(s, f) && 0 <= i <= INDEX_SLOT && Ptr(s, f, i) != -1 ==>
          ValidBlock(Ptr(s, f, i)) && s.blocks[Ptr(s, f, i)] == TAKEN)
    && (forall b :: 0 <= b < DATA_BLOCKS && s.blocks[b] == TAKEN ==>
          exists f, i :: Live(s, f) && 0 <= i <= INDEX_SLOT && Ptr(s, f, i) == b)
    && (forall f, i, g, j ::
          Live(s, f) && Live(s, g) && 0 <= i <= INDEX_SLOT && 0 <= j <= INDEX_SLOT && Ptr(s, f, i) == Ptr(s, g, j) != -1 ==>
            f == g && i == j)
  }

  lemma LedgerMeansNoAlias(s: State, w: Ledger)
    requires Inv(s, w)
    ensures NoAliasNoLeak(s)
  {
    forall b | 0 <= b < DATA_BLOCKS && s.blocks[b] == TAKEN
      ensures exists f, i :: Live(s, f) && 0 <= i <= INDEX_SLOT && Ptr(s, f, i) == b
    {
      assert Ptr(s, w.owner[b].inode, w.owner[b].index) == b;
    }
    forall f, i, g, j | Live(s, f) && Live(s, g) && 0 <= i <= INDEX_SLOT && 0 <= j <= INDEX_SLOT
        && Ptr(s, f, i) == Ptr(s, g, j) != -1
      ensures f == g && i == j
    {
      assert w.owner[Ptr(s, f, i)] == Slot(f, i) && w.owner[Ptr(s, g, j)] == Slot(g, j);
    }
  }

  // ---------------------------------------------------------------------------
  // Operations
  // ---------------------------------------------------------------------------

  datatype Op =
    | Open(path: cstring, flags: Flags)
    | Close(h: int)
    | Write(h: int, buf: seq<byte>)
    | Read(h: int, dst: seq<byte>, len: nat)

  /** The file system after one call. */
  function Step(s: State, op: Op): (r: State)
    requires WellFormed(s)
    ensures WellFormed(r)
  {
    match op
    case Open(path, flags) => TfsOpen(s, path, flags).0
    case Close(h) => TfsClose(s, h).0
    case Write(h, buf) => TfsWrite(s, h, buf).0
    case Read(h, dst, len) => if len <= |dst| then TfsRead(s, h, dst, len).0 else s
  }

  /** How many data pointers of a file are set, counted from the state alone. */
  function CountFrom(s: State, f: nat, i: nat): nat
    requires WellFormed(s) && f < INODE_TABLE_SIZE && i <= FILE_BLOCKS
    decreases FILE_BLOCKS - i
  {
    if i == FILE_BLOCKS || Ptr(s, f, i) == -1 then i else CountFrom(s, f, i + 1)
  }

  lemma {:induction false} CountIsLedgers(s: State, w: Ledger, f: nat, i: nat)
    requires Inv(s, w) && LiveFile(s, f)
    requires |w.count| == INODE_TABLE_SIZE && i <= w.count[f] <= FILE_BLOCKS
    ensures CountFrom(s, f, i) == w.count[f]
    decreases FILE_BLOCKS - i
  {
    hide Ptr, Owners, Root;
    if i < FILE_BLOCKS {
      SlotIsSet(s, w, f, i);
      if i < w.count[f] {
        CountIsLedgers(s, w, f, i + 1);
      }
    }
  }

  /** The free blocks suffice for a write of n bytes through handle h. */
  ghost predicate Enough(s: State, h: nat, n: nat)
    requires WellFormed(s) && h < MAX_OPEN_FILES && ValidInumber(s.files[h].inumber)
  {
    var f := s.files[h].inumber;
    var t := BlocksFor(Pos(s.files[h]), n);
    var count := CountFrom(s, f, 0);
    FreeCount(s.blocks) >= (if t > count then t - count else 0)
                           + (if t > DIRECT_BLOCK_POINTERS && s.inodes[f].dataBlock == -1 then 1 else 0)
  }

  /**
   What a caller must respect: data goes through open handles, at positions
   below 266 blocks; reads do not start past i_size; and a write that starts
   past i_size finds enough free blocks. Opening and closing are unrestricted.
   */
  ghost predicate Guard(s: State, op: Op)
    requires WellFormed(s)
  {
    match op
    case Open(_, _) => true
    case Close(_) => true
    case Write(h, buf) =>
      ValidHandle(h) ==>
        && s.fileTs[h] == TAKEN && Room(s, h, |buf|)
        && (Pos(s.files[h]) <= s.inodes[s.files[h].inumber].size || Enough(s, h, |buf|))
    case Read(h, dst, len) =>
      ValidHandle(h) && len <= |dst| ==>
        && s.fileTs[h] == TAKEN && LiveFile(s, s.files[h].inumber) && 0 <= s.files[h].boffset
        && Pos(s.files[h]) <= s.inodes[s.files[h].inumber].size
        && Pos(s.files[h]) + ReadLength(s, h, len) <= FILE_BYTES
  }

  // ---------------------------------------------------------------------------
  // Each operation keeps the invariant
  // ---------------------------------------------------------------------------

  /** What a data operation on file f through handle h may change. */
  lemma DataOpKeeps(s: State, w: Ledger, s': State, w': Ledger, f: nat, h: nat)
    requires RunInv(s, w) && h < MAX_OPEN_FILES && LiveFile(s, f) && s.files[h].inumber == f
    requires WellFormed(s') && Inv(s', w') && |w'.count| == INODE_TABLE_SIZE
    requires OnlyFile(s, s', f, h) && KeepsOthers(s, w, s', w', f) && Balanced(s, w, s', w', f)
    requires SizedAt(s', w', f)
    ensures RunInv(s', w')
  {
    hide Inv, FreeCount, FileBlock;
    assert forall g: nat :: g < INODE_TABLE_SIZE && g != f ==> UsedIfLive(s', w', g) == UsedIfLive(s, w, g);
    TotalChange(s, w, s', w', f, INODE_TABLE_SIZE);
    assert AllSized(s', w') by {
      forall g | LiveFile(s', g)
        ensures SizedAt(s', w', g)
      {
        if g != f {
          assert SizedAt(s, w, g);
        }
      }
    }
  }

  lemma WriteKeeps(s: State, w: Ledger, h: int, buf: seq<byte>) returns (w': Ledger)
    requires RunInv(s, w) && Guard(s, Write(h, buf))
    ensures RunInv(TfsWrite(s, h, buf).0, w')
  {
    hide Inv, FreeCount, WriteLoop, OnlyFile, KeepsOthers, Balanced, TotalUsed, CountFrom, SizedAt;
    if ValidHandle(h) {
      var f := s.files[h].inumber;
      assert SizedAt(s, w, f);
      LedgerFacts(s, w, f);
      CountIsLedgers(s, w, f, 0);
      w' := WriteLoopSound(s, w, h, buf, |buf|);
      DataOpKeeps(s, w, WriteLoop(s, h, buf, |buf|).0, w', f, h);
    } else {
      w' := w;
    }
  }

  lemma ReadKeeps(s: State, w: Ledger, h: int, dst: seq<byte>, len: nat) returns (w': Ledger)
    requires RunInv(s, w) && len <= |dst| && Guard(s, Read(h, dst, len))
    ensures RunInv(TfsRead(s, h, dst, len).0, w')
  {
    hide Inv, FreeCount, ReadLoop, OnlyFile, KeepsOthers, KeepsBlocks, Balanced, TotalUsed;
    if ValidHandle(h) {
      var f := s.files[h].inumber;
      var n := ReadLength(s, h, len);
      assert SizedAt(s, w, f);
      if n == 0 {
        assert ReadLoop(s, h, dst, 0, 0, 0).0 == s by {
          ReadLoopNothing(s, h, dst);
        }
        w' := w;
      } else {
        w' := ReadLoopSound(s, w, h, dst, 0, n, n);
        var s' := ReadLoop(s, h, dst, 0, n, n).0;
        ReadSoundSized(s, w, s', w', h);
        DataOpKeeps(s, w, s', w', f, h);
      }
    } else {
      w' := w;
    }
  }

  lemma ReadLoopNothing(s: State, h: nat, dst: seq<byte>)
    requires WellFormed(s) && h < MAX_OPEN_FILES
    ensures ReadLoop(s, h, dst, 0, 0, 0).0 == s
  {
  }

  /** A read of at least one byte happens only on a file with i_size > 0. */
  lemma ReadSoundSized(s: State, w: Ledger, s': State, w': Ledger, h: nat)
    requires WellFormed(s) && h < MAX_OPEN_FILES && LiveFile(s, s.files[h].inumber) && |w.count| == INODE_TABLE_SIZE
    requires ReadSound(s, w, s', w', h) && s.inodes[s.files[h].inumber].size > 0
    ensures WellFormed(s') && |w'.count| == INODE_TABLE_SIZE && SizedAt(s', w', s.files[h].inumber)
  {
  }

  /** The handle table takes any live file; nothing else depends on it. */
  lemma AddHandleKeeps(s: State, w: Ledger, f: int, offset: nat)
    requires RunInv(s, w) && LiveFile(s, f)
    ensures RunInv(AddToOpenFileTable(s, f, offset).0, w)
  {
    hide FreeCount;
    var s' := AddToOpenFileTable(s, f, offset).0;
    TableKeeps(s, w, s');
  }

  /** States that differ in the open file table only. */
  lemma TableKeeps(s: State, w: Ledger, s': State)
    requires RunInv(s, w) && WellFormed(s')
    requires s' == s.(files := s'.files, fileTs := s'.fileTs)
    requires forall h :: 0 <= h < MAX_OPEN_FILES && s'.fileTs[h] == TAKEN ==>
               LiveFile(s, s'.files[h].inumber)
    ensures RunInv(s', w)
  {
    hide FreeCount;
    forall g, i | ValidInumber(g) && 0 <= i <= INDEX_SLOT
      ensures Ptr(s', g, i) == Ptr(s, g, i)
    {
    }
    assert Owners(s', w) by {
      assert forall b :: 0 <= b < DATA_BLOCKS && w.owner[b].Slot? ==>
          Ptr(s, w.owner[b].inode, w.owner[b].index) == b;
    }
    assert Shapes(s', w);
    assert Root(s', w);
    assert AllSized(s', w) by {
      assert forall g :: LiveFile(s', g) ==> LiveFile(s, g) && (SizedAt(s, w, g) <==> SizedAt(s', w, g));
    }
    assert OpenHandles(s');
    assert forall g: nat :: g < INODE_TABLE_SIZE ==> UsedIfLive(s', w, g) == UsedIfLive(s, w, g);
    TotalChange(s, w, s', w, 0, INODE_TABLE_SIZE);
  }

  lemma CloseKeeps(s: State, w: Ledger, h: int)
    requires RunInv(s, w)
    ensures RunInv(TfsClose(s, h).0, w)
  {
    hide Inv, FreeCount, AllSized, Accounted;
    TableKeeps(s, w, TfsClose(s, h).0);
  }

  /** Truncating an existing file keeps the invariant and empties the file. */
  lemma TruncateKeeps(s: State, w: Ledger, f: nat, flags: Flags) returns (w': Ledger)
    requires RunInv(s, w) && LiveFile(s, f)
    ensures OpenExisting(s, f, flags).1 && RunInv(OpenExisting(s, f, flags).0, w')
    ensures LiveFile(OpenExisting(s, f, flags).0, f)
    ensures if flags.trunc then Truncated(s, w, OpenExisting(s, f, flags).0, w', f)
            else w' == w && OpenExisting(s, f, flags).0 == s
  {
    hide Inv, FreeCount, InodeDataFree, FileBlock;
    if !flags.trunc {
      w' := w;
    } else {
      assert SizedAt(s, w, f);
      w' := TruncateReleases(s, w, f, flags);
      var s' := OpenExisting(s, f, flags).0;
      SameUsed(s, w, s', w', f);
      TotalChange(s, w, s', w', f, INODE_TABLE_SIZE);
    }
  }

  lemma SameUsed(s: State, w: Ledger, s': State, w': Ledger, f: nat)
    requires WellFormed(s) && Inv(s, w) && LiveFile(s, f) && |w.count| == INODE_TABLE_SIZE && Truncated(s, w, s', w', f)
    ensures AllSized(s, w) ==> AllSized(s', w')
    ensures forall g: nat :: g < INODE_TABLE_SIZE && g != f ==> UsedIfLive(s', w', g) == UsedIfLive(s, w, g)
    ensures OpenHandles(s) ==> OpenHandles(s')
  {
    hide FreeCount, FileBlock, Owners, Shapes, Holds;
    forall g: nat | g < INODE_TABLE_SIZE && g != f
      ensures UsedIfLive(s', w', g) == UsedIfLive(s, w, g)
    {
      if g != ROOT_DIR_INUM {
        assert Live(s, g) ==> LiveFile(s, g);
      } else {
        RootCounts(s, w);
        RootCounts(s', w');
      }
    }
    forall g | LiveFile(s', g)
      ensures LiveFile(s, g)
      ensures SizedAt(s, w, g) ==> SizedAt(s', w', g)
    {
      assert Live(s, g) && g != ROOT_DIR_INUM;
    }
    forall h | 0 <= h < MAX_OPEN_FILES && s'.fileTs[h] == TAKEN && LiveFile(s, s.files[h].inumber)
      ensures LiveFile(s', s'.files[h].inumber)
    {
      assert s'.files[h] == s.files[h];
    }
  }

  /** The root directory has one block, its directory block. */
  lemma RootCounts(s: State, w: Ledger)
    requires Inv(s, w)
    ensures |w.count| == INODE_TABLE_SIZE && w.count[ROOT_DIR_INUM] == 0 && s.inodes[ROOT_DIR_INUM].dataBlock != -1
  {
  }

  // ---------------------------------------------------------------------------
  // Creation and tfs_open
  // ---------------------------------------------------------------------------

  /** A new inode without blocks, live or given back, changes neither the accounts nor the other files. */
  lemma FreshKeeps(s: State, w: Ledger, s': State, w': Ledger, f: nat)
    requires RunInv(s, w) && WellFormed(s') && Inv(s', w') && |w'.count| == INODE_TABLE_SIZE && f < INODE_TABLE_SIZE
    requires s'.blocks == s.blocks && s'.files == s.files && s'.fileTs == s.fileTs && !Live(s, f)
    requires s'.inodeTs == s.inodeTs || s'.inodeTs == s.inodeTs[f := TAKEN]
    requires s'.inodes == s.inodes[f := s'.inodes[f]]
    requires forall g: nat :: g < INODE_TABLE_SIZE && g != f ==> w'.count[g] == w.count[g]
    requires Live(s', f) ==> s'.inodes[f].dataBlock == -1 && w'.count[f] == 0
    ensures RunInv(s', w')
  {
    hide Inv, FreeCount;
    assert forall g: nat :: g < INODE_TABLE_SIZE ==> UsedIfLive(s', w', g) == UsedIfLive(s, w, g);
    TotalChange(s, w, s', w', f, INODE_TABLE_SIZE);
    assert AllSized(s', w') by {
      forall g | LiveFile(s', g)
        ensures SizedAt(s', w', g)
      {
        if g != f {
          assert SizedAt(s, w, g);
        }
      }
    }
  }

  /**
   Creating a file. It fails only when the directory is full (or no inode is
   free), and then rolls back: all that differs is the content of an inode that
   is free again.
   */
  lemma CreateKeeps(s: State, w: Ledger, path: cstring) returns (w': Ledger)
    requires RunInv(s, w) && ValidPathname(path)
    ensures RunInv(OpenNew(s, path).0, w')
    ensures var (s', f) := OpenNew(s, path);
            if f == -1 then
              && w' == w
              && ((forall g :: 0 <= g < INODE_TABLE_SIZE ==> Live(s, g)) || |w.bindings| == MAX_DIR_ENTRIES)
              && s'.inodeTs == s.inodeTs && s'.blocks == s.blocks && s'.data == s.data
              && s'.files == s.files && s'.fileTs == s.fileTs
              && (forall g :: Live(s, g) ==> s'.inodes[g] == s.inodes[g])
            else
              && LiveFile(s', f) && !Live(s, f) && f == FirstFree(s.inodeTs, 0) && w'.count[f] == 0
              && s'.inodes == s.inodes[f := Inode(T_FILE, 0, -1, NoPointers())] && s'.inodeTs == s.inodeTs[f := TAKEN]
              && s'.blocks == s.blocks && s'.files == s.files && s'.fileTs == s.fileTs
              && w'.bindings == w.bindings + [Binding(Clip(NameOf(path)), f)]
              && (forall g :: LiveFile(s, g) ==> SameFile(s, w, s', w', g))
  {
    hide Inv, FreeCount, InodeCreate, AddDirEntry, InodeDelete, SameFile, TotalUsed;
    var w1 := CreateInode(s, w);
    var (s1, f) := InodeCreate(s, T_FILE);
    if f == -1 {
      w' := w;
    } else {
      var w2 := BindInRoot(s1, w1, f, NameOf(path));
      var (s2, ok) := AddDirEntry(s1, ROOT_DIR_INUM, f, NameOf(path));
      if ok {
        w' := w2;
        SameFileTrans(s, w, s1, w1, s2, w2, f);
        FreshKeeps(s, w, s2, w2, f);
      } else {
        w' := w;
        DeleteNew(s, w, s1, w1, f);
        EntriesBounded(s, w);
        FreshKeeps(s, w, InodeDelete(s1, f).0, w, f);
      }
    }
  }

  lemma SameFileTrans(s: State, w: Ledger, s1: State, w1: Ledger, s2: State, w2: Ledger, f: nat)
    requires WellFormed(s) && WellFormed(s1) && WellFormed(s2)
    requires |w.count| == |w1.count| == |w2.count| == INODE_TABLE_SIZE
    requires f < INODE_TABLE_SIZE && s1.inodeTs == s.inodeTs[f := TAKEN] && !Live(s, f)
    requires forall g :: LiveFile(s, g) ==> SameFile(s, w, s1, w1, g)
    requires forall g :: LiveFile(s1, g) ==> SameFile(s1, w1, s2, w2, g)
    ensures forall g :: LiveFile(s, g) ==> SameFile(s, w, s2, w2, g)
  {
    hide FileBlock;
    forall g | LiveFile(s, g)
      ensures SameFile(s, w, s2, w2, g)
    {
      assert SameFile(s, w, s1, w1, g);
      assert LiveFile(s1, g) && SameFile(s1, w1, s2, w2, g);
    }
  }

  /** tfs_lookup finds the first binding of the name; what it finds is a live file. */
  lemma LookupFindsLive(s: State, w: Ledger, path: cstring)
    requires Inv(s, w) && ValidPathname(path)
    ensures TfsLookup(s, path) == Lookup(w.bindings, NameOf(path))
    ensures TfsLookup(s, path) == -1 || LiveFile(s, TfsLookup(s, path))
  {
    hide Owners, Shapes;
    FindInDirectory(s.data, s.inodes[ROOT_DIR_INUM].dataBlock * BLOCK_SIZE, w.bindings, NameOf(path));
    LookupFromSpec(w.bindings, NameOf(path), 0);
  }

  lemma OpenKeeps(s: State, w: Ledger, path: cstring, flags: Flags) returns (w': Ledger)
    requires RunInv(s, w)
    ensures RunInv(TfsOpen(s, path, flags).0, w')
  {
    hide Inv, FreeCount, OpenExisting, OpenNew, AddToOpenFileTable, TfsLookup, SameFile, AllSized, OpenHandles, Accounted;
    w' := w;
    if ValidPathname(path) {
      LookupFindsLive(s, w, path);
      var f := TfsLookup(s, path);
      if f >= 0 {
        w' := TruncateKeeps(s, w, f, flags);
        var s1 := OpenExisting(s, f, flags).0;
        AddHandleKeeps(s1, w', f, if flags.append then s1.inodes[f].size else 0);
      } else if flags.creat {
        w' := CreateKeeps(s, w, path);
        var (s1, g) := OpenNew(s, path);
        if g != -1 {
          AddHandleKeeps(s1, w', g, 0);
        }
      }
    }
  }

  /** Every guarded call keeps the invariant of runs. */
  lemma StepKeeps(s: State, w: Ledger, op: Op) returns (w': Ledger)
    requires RunInv(s, w) && Guard(s, op)
    ensures RunInv(Step(s, op), w')
  {
    hide RunInv, TfsOpen, TfsClose, TfsWrite, TfsRead;
    match op
    case Open(path, flags) => w' := OpenKeeps(s, w, path, flags);
    case Close(h) => CloseKeeps(s, w, h); w' := w;
    case Write(h, buf) => w' := WriteKeeps(s, w, h, buf);
    case Read(h, dst, len) =>
      if len <= |dst| {
        w' := ReadKeeps(s, w, h, dst, len);
      } else {
        w' := w;
      }
  }

  // ---------------------------------------------------------------------------
  // Runs
  // ---------------------------------------------------------------------------

  function Run(s: State, ops: seq<Op>): (r: State)
    requires WellFormed(s)
    ensures WellFormed(r)
    decreases |ops|
  {
    if ops == [] then s else Run(Step(s, ops[0]), ops[1..])
  }

  /** Every call of the run meets its guard at the moment it is made. */
  ghost predicate Guarded(s: State, ops: seq<Op>)
    requires WellFormed(s)
    decreases |ops|
  {
    ops != [] ==> Guard(s, ops[0]) && Guarded(Step(s, ops[0]), ops[1..])
  }

  lemma {:induction false} RunKeeps(s: State, w: Ledger, ops: seq<Op>) returns (w': Ledger)
    requires RunInv(s, w) && Guarded(s, ops)
    ensures RunInv(Run(s, ops), w')
    decreases |ops|
  {
    hide Guard, Step, Inv, AllSized, OpenHandles, Accounted;
    if ops == [] {
      w' := w;
    } else {
      var w1 := StepKeeps(s, w, ops[0]);
      w' := RunKeeps(Step(s, ops[0]), w1, ops[1..]);
    }
  }

  lemma {:induction false} RootOnlyTotal(s: State, w: Ledger, n: nat)
    requires WellFormed(s) && 0 < n <= INODE_TABLE_SIZE && |w.count| == INODE_TABLE_SIZE
    requires forall f: nat :: f < INODE_TABLE_SIZE ==> (Live(s, f) <==> f == ROOT_DIR_INUM)
    requires w.count[ROOT_DIR_INUM] == 0 && s.inodes[ROOT_DIR_INUM].dataBlock != -1
    ensures TotalUsed(s, w, n) == 1
  {
    if n == 1 {
      assert TotalUsed(s, w, 0) == 0;
    } else {
      RootOnlyTotal(s, w, n - 1);
      assert !Live(s, n - 1);
    }
  }

  /** The ledger of a fresh file system: block 0 holds the empty root directory. */
  function InitialLedger(): (w: Ledger)
    ensures |w.owner| == DATA_BLOCKS && |w.count| == INODE_TABLE_SIZE
  {
    Ledger(seq<Owner>(DATA_BLOCKS, b => if b == 0 then Slot(ROOT_DIR_INUM, INDEX_SLOT) else Nobody),
           seq<nat>(INODE_TABLE_SIZE, _ => 0), [])
  }

  /** tfs_init succeeds whatever the tables held before, and establishes the invariant. */
  lemma InitEstablishes(s: State)
    requires WellFormed(s)
    ensures TfsInit(s).1 == 0
    ensures RunInv(TfsInit(s).0, InitialLedger()) && FreeCount(TfsInit(s).0.blocks) == DATA_BLOCKS - 1
    ensures forall h :: 0 <= h < MAX_OPEN_FILES ==> TfsInit(s).0.fileTs[h] == FREE
    ensures forall f :: !LiveFile(TfsInit(s).0, f)
    ensures TfsInit(s).0.inodes[ROOT_DIR_INUM].dataBlock == 0
  {
    hide Count, ClearEntries;
    var s0 := StateInit(s);
    var s' := TfsInit(s).0;
    var w := InitialLedger();
    assert FirstFree(s0.inodeTs, 0) == 0 && FirstFree(s0.blocks, 0) == 0;
    assert s'.inodeTs == s0.inodeTs[0 := TAKEN] && s'.blocks == s0.blocks[0 := TAKEN] && s'.fileTs == s0.fileTs;
    assert s'.inodes == s.inodes[0 := Inode(T_DIRECTORY, BLOCK_SIZE, 0, NoPointers())];
    assert s'.data == ClearEntries(s.data, 0, 0);
    ClearedIsEmpty(s.data, 0);
    CountUniform(s0.blocks, FREE, FREE);
    CountUpdate(s0.blocks, 0, TAKEN, FREE);
    RootOnlyTotal(s', w, INODE_TABLE_SIZE);
    assert forall i :: 0 <= i < FILE_BLOCKS ==> Ptr(s', ROOT_DIR_INUM, i) == -1;
    assert Owners(s', w);
    assert Shapes(s', w);
  }

  /**
   Ownership over whole runs. After any guarded sequence of calls from
   tfs_init, every TAKEN block is reached through exactly one pointer slot of
   one live inode, every pointer leads to a TAKEN block, and free and owned
   blocks add up to 1024.
   */
  lemma RunsKeepOwnership(s: State, ops: seq<Op>) returns (w: Ledger)
    requires WellFormed(s) && Guarded(TfsInit(s).0, ops)
    ensures NoAliasNoLeak(Run(TfsInit(s).0, ops))
    ensures RunInv(Run(TfsInit(s).0, ops), w)
  {
    hide Inv, TfsInit, NoAliasNoLeak, AllSized, OpenHandles, Accounted, Guarded, Run;
    InitEstablishes(s);
    w := RunKeeps(TfsInit(s).0, InitialLedger(), ops);
    LedgerMeansNoAlias(Run(TfsInit(s).0, ops), w);
  }
}
