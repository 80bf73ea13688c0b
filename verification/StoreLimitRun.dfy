/**
 A run past the 266 blocks: with "/a" full, one more byte is written into the
 root directory and renames the file, while the byte count is returned.
 */
module StoreLimitRun {
  import opened Memory
  import opened Directory
  import opened StoreModel
  import opened Numbering
  import opened StoreOwnership
  import opened StoreAllocation
  import opened StoreWrite
  import opened StoreSplice
  import opened StoreHistory
  import opened StoreRuns
  import opened StoreLimit
  import opened StoreRefinement
  import opened StoreExamples
  import F = FlatStore

  // ---------------------------------------------------------------------------
  // What writes leave where it is
  // ---------------------------------------------------------------------------

  /** Other inodes stay, and so does an index block once it is there. */
  predicate KeepsIndex(s: State, s': State, f: nat)
    requires WellFormed(s) && WellFormed(s') && f < INODE_TABLE_SIZE
  {
    && (forall g :: 0 <= g < INODE_TABLE_SIZE && g != f ==> s'.inodes[g] == s.inodes[g])
    && (s.inodes[f].dataBlock != -1 ==> s'.inodes[f].dataBlock == s.inodes[f].dataBlock)
  }

  lemma {:induction false} FillDirectKeepsIndex(s: State, f: nat, i: nat, last: int)
    requires WellFormed(s) && f < INODE_TABLE_SIZE
    ensures KeepsIndex(s, FillDirect(s, f, i, last), f)
    ensures FillDirect(s, f, i, last).inodes[f].dataBlock == s.inodes[f].dataBlock
    decreases DIRECT_BLOCK_POINTERS - i
  {
    if i <= last && i < DIRECT_BLOCK_POINTERS {
      var (s1, b) := DataBlockAlloc(s);
      FillDirectKeepsIndex(if s.inodes[f].direct[i] == -1 then SetDirect(s1, f, i, b) else s, f, i + 1, last);
    }
  }

  lemma {:induction false} FillPointersKeepsIndex(s: State, blk: nat, j: nat, last: int)
    requires WellFormed(s) && blk < DATA_BLOCKS
    ensures FillPointers(s, blk, j, last).inodes == s.inodes
    decreases MAX_BLOCK_POINTERS - j
  {
    if j <= last && j < MAX_BLOCK_POINTERS {
      if ReadInt(s.data, PointerAt(blk, j)) == -1 {
        var (s1, b) := DataBlockAlloc(s);
        FillPointersKeepsIndex(SetPointer(s1, blk, j, b), blk, j + 1, last);
      } else {
        FillPointersKeepsIndex(s, blk, j + 1, last);
      }
    }
  }

  lemma UpdateKeepsIndex(s: State, h: nat)
    requires WellFormed(s) && h < MAX_OPEN_FILES && ValidInumber(s.files[h].inumber)
    ensures KeepsIndex(s, InodeUpdate(s, h).0, s.files[h].inumber)
  {
    hide FillDirect, FillPointers;
    var file := s.files[h];
    FillDirectKeepsIndex(s, file.inumber, 0, file.boffset);
    var s2 := EnsureIndexBlock(FillDirect(s, file.inumber, 0, file.boffset), file.inumber);
    if ValidBlock(s2.inodes[file.inumber].dataBlock) {
      FillPointersKeepsIndex(s2, s2.inodes[file.inumber].dataBlock, 0, file.boffset - DIRECT_BLOCK_POINTERS);
    }
  }

  lemma {:induction false} WriteKeepsIndex(s: State, h: nat, buf: seq<byte>, total: nat)
    requires WellFormed(s) && h < MAX_OPEN_FILES && ValidInumber(s.files[h].inumber)
    ensures KeepsIndex(s, WriteLoop(s, h, buf, total).0, s.files[h].inumber)
    decreases |buf|
  {
    hide InodeUpdate;
    if buf != [] {
      var (s1, p) := InodeUpdate(s, h);
      UpdateKeepsIndex(s, h);
      if p.Address? {
        var aux := WriteStep(|buf|, s.files[h].offset);
        WriteKeepsIndex(PutBytes(s1, h, p.at, buf[..aux]), h, buf[aux..], total);
      }
    }
  }

  // ---------------------------------------------------------------------------
  // The full file
  // ---------------------------------------------------------------------------

  const FIRST: nat := 10241  // ten blocks and one byte: the index block is there
  const SECOND: nat := 262143  // FILE_BYTES - FIRST

  /** "/a" with all its 266 blocks full of zeros. */
  function FullFile(): F.File {
    F.WriteFile(ZeroFile(FIRST), FIRST, Zeros(SECOND))
  }

  lemma FullFileFacts()
    ensures FullFile().size == FILE_BYTES && FullFile().blocks == FILE_BLOCKS
    ensures forall p :: 0 <= p < FILE_BYTES ==> p in FullFile().bytes && FullFile().bytes[p] == 0
    ensures Handle0(FIRST)[0 := F.Handle(1, FILE_BYTES)] == Handle0(FILE_BYTES)
  {
    hide ZeroFile, F.Put;
    ZeroFileFacts(FIRST);
    forall p: nat | p < FILE_BYTES
      ensures p in FullFile().bytes && FullFile().bytes[p] == 0
    {
      assert p < FIRST || F.Within(p, FIRST, SECOND);
    }
  }

  const FILL: seq<Op> := [Open(PATH, CREAT), Write(0, Zeros(FIRST))]

  /** The root directory keeps block 0. */
  lemma RootKeepsBlock(s: State)
    requires WellFormed(s)
    ensures Step(TfsInit(s).0, Open(PATH, CREAT)).inodes[ROOT_DIR_INUM].dataBlock == 0
  {
    PathName();
    InitEstablishes(s);
    hide TfsInit, RunInv, OpenNew, TfsLookup, OpenExisting;
    var s0 := TfsInit(s).0;
    FoundIsLive(s0, InitialLedger(), PATH);
    NewInodeOnly(s0, InitialLedger(), PATH);
  }

  lemma FoundIsLive(s: State, w: Ledger, path: cstring)
    requires RunInv(s, w) && ValidPathname(path)
    ensures WellFormed(s) && (TfsLookup(s, path) == -1 || LiveFile(s, TfsLookup(s, path)))
  {
    hide Inv;
    LookupFindsLive(s, w, path);
  }

  /** A creation writes no inode in use. */
  lemma NewInodeOnly(s: State, w: Ledger, path: cstring)
    requires RunInv(s, w) && ValidPathname(path)
    ensures WellFormed(s) && OpenNew(s, path).0.inodes[ROOT_DIR_INUM] == s.inodes[ROOT_DIR_INUM]
  {
    hide OpenNew, Owners, Shapes, FreeCount, AllSized, Accounted;
    var w' := CreateKeeps(s, w, path);
    assert Live(s, ROOT_DIR_INUM);
  }

  /** The flat store after the first write. */
  function Eleven(): F.Flat {
    OneFile(ZeroFile(FIRST), Handle0(FIRST), DATA_BLOCKS - 13, 13)
  }

  /** "/a" with eleven blocks: the index block is one of the first thirteen. */
  lemma FillFirst(s: State) returns (w: Ledger)
    requires WellFormed(s)
    ensures var s' := Run(TfsInit(s).0, FILL);
            && Agrees(s', w, Eleven()) && s'.files[0].inumber == 1
            && s'.inodes[ROOT_DIR_INUM].dataBlock == 0 && -1 < s'.inodes[1].dataBlock < 13
  {
    w := ZerosRun(s, FIRST);
    ZeroFileFacts(FIRST);
    RootKeepsBlock(s);
    assert 0 in Handle0(FIRST);
    hide Agrees, TfsInit, Run, OneFile, F.WriteFile, ZeroFile, Handle0, TfsOpen, TfsWrite, Zeros, Inv, FreeCount, FileByte;
    RunTwo(TfsInit(s).0, Open(PATH, CREAT), Write(0, Zeros(FIRST)));
    var s0 := Step(TfsInit(s).0, Open(PATH, CREAT));
    var s1 := Run(TfsInit(s).0, FILL);
    CreatedHandle(s);
    RootAndIndex(s0, 0, Zeros(FIRST));
    SeenInTables(s1, w, ZeroFile(FIRST), Handle0(FIRST), DATA_BLOCKS - 13, 13);
    IndexBelow(s1, w, 1, 13);
  }

  lemma CreatedHandle(s: State)
    requires WellFormed(s)
    ensures Step(TfsInit(s).0, Open(PATH, CREAT)).files[0].inumber == 1
  {
    var w := CreateFirst(s);
    hide Agrees, TfsInit, Step, OneFile, Inv, FreeCount, FileByte;
    SeenInTables(Step(TfsInit(s).0, Open(PATH, CREAT)), w, F.EMPTY_FILE, Handle0(0), DATA_BLOCKS - 1, 1);
    assert 0 in Handle0(0);
  }

  /** "/a" filled by a second write. */
  lemma FillRun(s: State) returns (w: Ledger)
    requires WellFormed(s)
    ensures var s' := Step(Run(TfsInit(s).0, FILL), Write(0, Zeros(SECOND)));
            && Agrees(s', w, OneFile(FullFile(), Handle0(FILE_BYTES), DATA_BLOCKS - 268, 268))
            && s'.inodes[ROOT_DIR_INUM].dataBlock == 0 && -1 < s'.inodes[1].dataBlock < 13
  {
    var w1 := FillFirst(s);
    ZeroFileFacts(FIRST);
    FullFileFacts();
    assert 0 in Handle0(FIRST) && Handle0(FIRST)[0] == F.Handle(1, FIRST);
    hide Agrees, TfsInit, Run, OneFile, F.WriteFile, ZeroFile, Handle0, TfsOpen, TfsWrite, Zeros;
    var s1 := Run(TfsInit(s).0, FILL);
    w := WriteOn(s1, w1, ZeroFile(FIRST), Handle0(FIRST), 0, Zeros(SECOND), DATA_BLOCKS - 13, 13);
    RootAndIndex(s1, 0, Zeros(SECOND));
  }

  lemma RootAndIndex(s: State, h: nat, buf: seq<byte>)
    requires WellFormed(s) && h < MAX_OPEN_FILES && s.files[h].inumber == 1
    ensures Step(s, Write(h, buf)).inodes[ROOT_DIR_INUM] == s.inodes[ROOT_DIR_INUM]
    ensures s.inodes[1].dataBlock != -1 ==> Step(s, Write(h, buf)).inodes[1].dataBlock == s.inodes[1].dataBlock
  {
    hide WriteLoop;
    WriteKeepsIndex(s, h, buf, |buf|);
  }

  lemma IndexBelow(s: State, w: Ledger, f: int, m: int)
    requires Inv(s, w) && LiveFile(s, f) && Below(s.blocks, m) && |w.count| == INODE_TABLE_SIZE && Tight(s, w, f)
    requires w.count[f] > DIRECT_BLOCK_POINTERS
    ensures -1 < s.inodes[f].dataBlock < m
  {
    IndexBlockOwner(s, w, f);
  }

  // ---------------------------------------------------------------------------
  // One byte more
  // ---------------------------------------------------------------------------

  /** Behind the index block of "/a" lies another of its own blocks. */
  lemma BlockBehindIndex(s: State, w: Ledger) returns (i: nat)
    requires WellFormed(s) && Inv(s, w) && |w.count| == INODE_TABLE_SIZE && LiveFile(s, 1)
    requires (forall g :: LiveFile(s, g) ==> g == 1) && s.inodes[ROOT_DIR_INUM].dataBlock == 0
    requires FreeCount(s.blocks) == DATA_BLOCKS - 268 && Below(s.blocks, 268) && -1 < s.inodes[1].dataBlock < 13
    ensures i < FILE_BLOCKS && Ptr(s, 1, i) == s.inodes[1].dataBlock + 1
  {
    var b := s.inodes[1].dataBlock + 1;
    CountBoth(s.blocks);
    PackedPrefix(s.blocks, 268);
    hide Count;
    assert s.blocks[b] == TAKEN && Ptr(s, w.owner[b].inode, w.owner[b].index) == b;
    var g := w.owner[b].inode;
    i := w.owner[b].index;
    assert Live(s, g) && 0 <= i <= INDEX_SLOT;
    assert i < FILE_BLOCKS ==> (Ptr(s, g, i) != -1 <==> i < w.count[g]);
    assert i == INDEX_SLOT ==> Ptr(s, g, i) == s.inodes[g].dataBlock;
    assert g != ROOT_DIR_INUM;
    assert LiveFile(s, g);
  }

  /** So the block number found there is 0. */
  lemma ZeroBehindIndex(s: State, i: nat)
    requires WellFormed(s) && i < FILE_BLOCKS && 0 <= s.inodes[1].dataBlock < DATA_BLOCKS - 1
    requires Ptr(s, 1, i) == s.inodes[1].dataBlock + 1
    requires forall p :: 0 <= p < FILE_BYTES ==> FileByte(s, 1, p) == 0
    ensures ReadInt(s.data, PointerAt(s.inodes[1].dataBlock, MAX_BLOCK_POINTERS)) == 0
  {
    var at := PointerAt(s.inodes[1].dataBlock, MAX_BLOCK_POINTERS);
    forall p | at <= p < at + 4
      ensures s.data[p] == 0
    {
      var o := p - at;
      ByteOfBlock(s, 1, i * BLOCK_SIZE + o, i, o);
      assert FileByte(s, 1, i * BLOCK_SIZE + o) == 0;
      assert BlockOf(s.data, s.inodes[1].dataBlock + 1)[o] == s.data[p];
    }
    FourZeros([]);
    assert s.data[at..at + 4] == [0, 0, 0, 0] + [];
  }

  /** A byte put at the front of the directory replaces the first letter of its first name. */
  lemma Renamed(data: seq<byte>, inumber: int)
    requires |data| == DATA_SIZE && Holds(data, 0, [Binding([97], inumber)])
    ensures Holds(Splice(data, 0, [98]), 0, [Binding([98], inumber)])
  {
    var data' := Splice(data, 0, [98]);
    forall i: nat | i < MAX_DIR_ENTRIES
      ensures EntryInumber(data', 0, i) == EntryInumber(data, 0, i)
    {
      ReadIntFrame(data, data', ENTRY_SIZE * i + MAX_FILE_NAME);
    }
    var d, d' := EntryName(data, 0, 0), EntryName(data', 0, 0);
    assert forall k :: 1 <= k < MAX_FILE_NAME ==> d'[k] == d[k] == StoredName([97])[k] == StoredName([98])[k];
    assert d' == StoredName([98]);
  }

  /** What the directory binds is what tfs_lookup finds. */
  lemma LookupHeld(s: State, list: seq<Binding>, path: cstring)
    requires WellFormed(s) && s.inodes[ROOT_DIR_INUM].dataBlock == 0 && s.inodes[ROOT_DIR_INUM].kind == T_DIRECTORY
    requires Holds(s.data, 0, list) && ValidPathname(path)
    ensures TfsLookup(s, path) == Lookup(list, NameOf(path))
  {
    FindInDirectory(s.data, 0, list, NameOf(path));
  }

  lemma RootHolds(s: State, w: Ledger)
    requires Inv(s, w) && s.inodes[ROOT_DIR_INUM].dataBlock == 0
    ensures s.inodes[ROOT_DIR_INUM].kind == T_DIRECTORY && Holds(s.data, 0, w.bindings)
  {
    assert Live(s, ROOT_DIR_INUM);
  }

  /** The write of the byte "b" at position FILE_BYTES. */
  lemma ByteTooMuch(s: State, w: Ledger)
    requires WellFormed(s) && Inv(s, w) && |w.count| == INODE_TABLE_SIZE && LiveFile(s, 1) && w.count[1] == FILE_BLOCKS
    requires s.inodes[ROOT_DIR_INUM].dataBlock == 0 && 0 <= s.inodes[1].dataBlock < DATA_BLOCKS - 1
    requires s.files[0].inumber == 1 && Pos(s.files[0]) == FILE_BYTES && w.bindings == [Binding([97], 1)]
    requires ReadInt(s.data, PointerAt(s.inodes[1].dataBlock, MAX_BLOCK_POINTERS)) == 0
    ensures var (s', r) := TfsWrite(s, 0, [98]);
            && r == Done(1)
            && TfsLookup(s, PATH) == 1 && TfsLookup(s', PATH) == -1 && TfsLookup(s', [47, 98]) == 1
  {
    hide Owners, Shapes, InodeUpdate, FindInDir, Holds;
    FullUpdate(s, w, 0);
    assert s.files[0].boffset == FILE_BLOCKS && s.files[0].offset == 0;
    assert InodeUpdate(s, 0) == (s, Address(0));
    OneChunk(s, 0, [98]);
    var s' := TfsWrite(s, 0, [98]).0;
    RootHolds(s, w);
    Renamed(s.data, 1);
    PathName();
    assert NameOf([47, 98]) == [98];
    LookupHeld(s, [Binding([97], 1)], PATH);
    LookupHeld(s', [Binding([98], 1)], PATH);
    LookupHeld(s', [Binding([98], 1)], [47, 98]);
  }

  /** The byte "b" written at the end of "/a" is acknowledged, "/a" is gone, and the file is found under "/b". */
  ghost predicate RenamedByWrite(s: State) {
    && WellFormed(s) && s.inodes[1].size == Pos(s.files[0]) == FILE_BYTES && TfsLookup(s, PATH) == 1
    && var (s', r) := TfsWrite(s, 0, [98]);
    && r == Done(1) && TfsLookup(s', PATH) == -1 && TfsLookup(s', [47, 98]) == 1
  }

  lemma FullIsRenamed(s: State, w: Ledger)
    requires Agrees(s, w, OneFile(FullFile(), Handle0(FILE_BYTES), DATA_BLOCKS - 268, 268))
    requires s.inodes[ROOT_DIR_INUM].dataBlock == 0 && -1 < s.inodes[1].dataBlock < 13
    ensures RenamedByWrite(s)
  {
    FullFileFacts();
    assert 0 in Handle0(FILE_BYTES) && Handle0(FILE_BYTES)[0] == F.Handle(1, FILE_BYTES);
    hide Agrees, OneFile, Handle0, FullFile, TfsWrite, TfsLookup, Inv, FreeCount, FileByte, Below, Tight, Ptr;
    SeenInTables(s, w, FullFile(), Handle0(FILE_BYTES), DATA_BLOCKS - 268, 268);
    var i := BlockBehindIndex(s, w);
    assert forall p: nat :: p < FILE_BYTES ==> p in FullFile().bytes && FileByte(s, 1, p) == FullFile().bytes[p];
    ZeroBehindIndex(s, i);
    ByteTooMuch(s, w);
  }

  /**
   One byte past the limit. From tfs_init: "/a" is created and filled with zeros;
   then the byte "b" is written at its end. The write returns 1, "/a" is gone,
   and the file is found under "/b".
   */
  lemma LimitByteRenames(s: State)
    requires WellFormed(s)
    ensures RenamedByWrite(Step(Run(TfsInit(s).0, FILL), Write(0, Zeros(SECOND))))
  {
    var w := FillRun(s);
    hide Agrees, TfsInit, Run, Step, OneFile, RenamedByWrite, FullFile, Handle0;
    FullIsRenamed(Step(Run(TfsInit(s).0, FILL), Write(0, Zeros(SECOND))), w);
  }
}
