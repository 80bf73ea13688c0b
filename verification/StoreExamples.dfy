/**
 Runs from tfs_init in which part one does not do what it promises: one for each
 condition that the theorems name.
 */
module StoreExamples {
  import opened Memory
  import opened Directory
  import opened StoreModel
  import opened Numbering
  import opened StoreOwnership
  import opened StoreAllocation
  import opened StoreUpdate
  import opened StoreWrite
  import opened StoreSplice
  import opened StoreRead
  import opened StoreOutcome
  import opened StoreRuns
  import opened StoreHistory
  import opened StoreRefinement
  import opened StoreSize
  import F = FlatStore

  /** "/a" */
  const PATH: cstring := [47, 97]
  const CREAT: Flags := Flags(true, false, false)
  const PLAIN: Flags := Flags(false, false, false)
  const TRUNC: Flags := Flags(false, true, false)

  /** A flat store with "/a" as its only file, number 1. */
  function OneFile(file: F.File, handles: map<int, F.Handle>, free: int, peak: int): F.Flat {
    F.Flat([Binding([97], 1)], map[1 := file], handles, free, peak)
  }

  /** Handle 0 of "/a". */
  function Handle0(pos: nat): map<int, F.Handle> {
    map[0 := F.Handle(1, pos)]
  }

  /** Handles 0 and 1 of "/a". */
  function Handle01(pos: nat, pos1: nat): map<int, F.Handle> {
    map[0 := F.Handle(1, pos), 1 := F.Handle(1, pos1)]
  }

  lemma PathName()
    ensures ValidPathname(PATH) && NameOf(PATH) == [97] && Clip(NameOf(PATH)) == [97]
  {
  }

  /** Creating "/a" first. */
  lemma CreateFirst(s: State) returns (w: Ledger)
    requires WellFormed(s)
    ensures Agrees(Step(TfsInit(s).0, Open(PATH, CREAT)), w, OneFile(F.EMPTY_FILE, Handle0(0), DATA_BLOCKS - 1, 1))
  {
    InitAgrees(s);
    PathName();
    hide Agrees, TfsInit;
    w := StepAgrees(TfsInit(s).0, InitialLedger(), INITIAL, Open(PATH, CREAT));
  }

  /** The flat store after opening "/a" again through handle 1. */
  lemma FlatOpenAgain(file: F.File, pos: nat, free: int, peak: int, trunc: bool)
    ensures var file' := if trunc then F.EMPTY_FILE else file;
            var a := OneFile(file, Handle0(pos), free, peak);
            F.Open(a, PATH, Flags(false, trunc, false)).0 ==
              OneFile(file', Handle01(pos, 0),
                      free + F.Need(file.blocks) - F.Need(file'.blocks), peak)
  {
    PathName();
    hide F.Need;
    var a := OneFile(file, Handle0(pos), free, peak);
    assert Lookup(a.names, [97]) == 1;
    assert LowestFree(a.handles, 0, MAX_OPEN_FILES) == LowestFree(a.handles, 1, MAX_OPEN_FILES) == 1;
    var file' := if trunc then F.EMPTY_FILE else file;
    assert a.files[1 := file'] == map[1 := file'];
    assert a.handles[1 := F.Handle(1, 0)] == Handle01(pos, 0);
  }

  /** Opening "/a" again through handle 1. */
  lemma OpenAgain(s: State, w: Ledger, file: F.File, pos: nat, free: int, peak: int, trunc: bool) returns (w': Ledger)
    requires Agrees(s, w, OneFile(file, Handle0(pos), free, peak))
    ensures var file' := if trunc then F.EMPTY_FILE else file;
            Agrees(Step(s, Open(PATH, Flags(false, trunc, false))), w',
                   OneFile(file', Handle01(pos, 0),
                           free + F.Need(file.blocks) - F.Need(file'.blocks), peak))
  {
    hide Agrees, F.Open, OneFile, F.Need, Step;
    FlatOpenAgain(file, pos, free, peak, trunc);
    w' := StepAgrees(s, w, OneFile(file, Handle0(pos), free, peak), Open(PATH, Flags(false, trunc, false)));
  }

  /** The flat store after a write through handle h of "/a". */
  lemma FlatWriteOn(file: F.File, handles: map<int, F.Handle>, h: int, buf: seq<byte>, free: int, peak: int)
    requires ValidHandle(h) && h in handles && handles[h].file == 1
    ensures var after := F.WriteFile(file, handles[h].pos, buf);
            var free' := free + F.Need(file.blocks) - F.Need(after.blocks);
            var a := OneFile(file, handles, free, peak);
            F.OpenAt(a, h) &&
            F.Write(a, h, buf).0 ==
              OneFile(after, handles[h := F.Handle(1, handles[h].pos + |buf|)], free', Max(peak, DATA_BLOCKS - free'))
  {
    hide F.WriteFile, F.Need;
    assert map[1 := file][1 := F.WriteFile(file, handles[h].pos, buf)] == map[1 := F.WriteFile(file, handles[h].pos, buf)];
  }

  /** A write through handle h of "/a". */
  lemma WriteOn(s: State, w: Ledger, file: F.File, handles: map<int, F.Handle>, h: int, buf: seq<byte>, free: int, peak: int)
    returns (w': Ledger)
    requires Agrees(s, w, OneFile(file, handles, free, peak)) && ValidHandle(h) && h in handles && handles[h].file == 1
    requires handles[h].pos + |buf| <= FILE_BYTES && file.size + |buf| < SIZE_MOD
    requires F.Need(F.WriteFile(file, handles[h].pos, buf).blocks) - F.Need(file.blocks) <= free
    ensures var after := F.WriteFile(file, handles[h].pos, buf);
            var free' := free + F.Need(file.blocks) - F.Need(after.blocks);
            Agrees(Step(s, Write(h, buf)), w',
                   OneFile(after, handles[h := F.Handle(1, handles[h].pos + |buf|)], free', Max(peak, DATA_BLOCKS - free')))
  {
    FlatWriteOn(file, handles, h, buf, free, peak);
    var a := OneFile(file, handles, free, peak);
    assert a.handles == handles && a.files[1] == file && a.free == free;
    hide Agrees, F.WriteFile, F.Write, F.Need, OneFile, Step;
    w' := StepAgrees(s, w, a, Write(h, buf));
  }

  lemma RunTwo(s: State, op1: Op, op2: Op)
    requires WellFormed(s)
    ensures Run(s, [op1, op2]) == Step(Step(s, op1), op2)
  {
    hide Step;
    var s2 := Step(Step(s, op1), op2);
    assert [op1, op2][1..] == [op2] && [op2][1..] == [];
    assert Run(Step(s, op1), [op2]) == Run(s2, []);
  }

  lemma {:induction false} RunAppend(s: State, first: seq<Op>, rest: seq<Op>)
    requires WellFormed(s)
    ensures Run(s, first + rest) == Run(Run(s, first), rest)
    decreases |first|
  {
    hide Step;
    if first == [] {
      assert first + rest == rest;
    } else {
      assert (first + rest)[0] == first[0] && (first + rest)[1..] == first[1..] + rest;
      RunAppend(Step(s, first[0]), first[1..], rest);
    }
  }

  // ---------------------------------------------------------------------------
  // The size after an overwrite
  // ---------------------------------------------------------------------------

  const ONE_BYTE: seq<Op> := [Open(PATH, CREAT), Write(0, [1])]
  const OVERWRITE: seq<Op> := [Open(PATH, PLAIN), Write(1, [2])]

  /** "/a" after its first byte. */
  function ByteOne(): F.File {
    F.File(1, 1, map[0 := 1])
  }

  /** "/a" after the byte was overwritten. */
  function ByteTwo(): F.File {
    F.File(2, 1, map[0 := 2])
  }

  lemma FirstByte()
    ensures F.WriteFile(F.EMPTY_FILE, 0, [1]) == ByteOne() && F.WriteFile(ByteOne(), 0, [2]) == ByteTwo()
    ensures !Dense(ByteTwo())
    ensures Handle0(0)[0 := F.Handle(1, 1)] == Handle0(1) && Handle01(1, 0)[1 := F.Handle(1, 1)] == Handle01(1, 1)
  {
    assert F.Put(map[], 0, [1]) == map[0 := 1];
    assert F.Put(map[0 := 1], 0, [2]) == map[0 := 2];
    assert 1 !in ByteTwo().bytes;
  }

  /** A new "/a" with one byte written through handle 0. */
  lemma OneByteRun(s: State) returns (w: Ledger)
    requires WellFormed(s)
    ensures Agrees(Run(TfsInit(s).0, ONE_BYTE), w, OneFile(ByteOne(), Handle0(1), DATA_BLOCKS - 2, 2))
  {
    var w1 := CreateFirst(s);
    FirstByte();
    assert 0 in Handle0(0);
    hide Agrees, TfsInit, Step, Run, F.WriteFile, OneFile;
    var s1 := Step(TfsInit(s).0, Open(PATH, CREAT));
    w := WriteOn(s1, w1, F.EMPTY_FILE, Handle0(0), 0, [1], DATA_BLOCKS - 1, 1);
    RunTwo(TfsInit(s).0, Open(PATH, CREAT), Write(0, [1]));
  }

  /** Writing byte 0 twice, through two handles: i_size is 2, and byte 0 is all that was ever written. */
  lemma OverwriteRun(s: State) returns (w: Ledger)
    requires WellFormed(s)
    ensures var s' := Run(TfsInit(s).0, ONE_BYTE + OVERWRITE);
            && Agrees(s', w, OneFile(ByteTwo(), Handle01(1, 1), DATA_BLOCKS - 2, 2)) && !Dense(ByteTwo())
            && s'.inodes[1].size == 2 && Pos(s'.files[1]) == 1
  {
    var w1 := OneByteRun(s);
    FirstByte();
    hide Agrees, TfsInit, Step, Run, F.WriteFile, Dense, OneFile;
    var s1 := Run(TfsInit(s).0, ONE_BYTE);
    var w2 := OpenAgain(s1, w1, ByteOne(), 1, DATA_BLOCKS - 2, 2, false);
    var s2 := Step(s1, Open(PATH, PLAIN));
    w := WriteOn(s2, w2, ByteOne(), Handle01(1, 0), 1, [2], DATA_BLOCKS - 2, 2);
    RunTwo(s1, Open(PATH, PLAIN), Write(1, [2]));
    RunAppend(TfsInit(s).0, ONE_BYTE, OVERWRITE);
    SeenInTables(Step(s2, Write(1, [2])), w, ByteTwo(), Handle01(1, 1), DATA_BLOCKS - 2, 2);
  }

  /** What the tables show of a store with one file. */
  lemma SeenInTables(s: State, w: Ledger, file: F.File, handles: map<int, F.Handle>, free: int, peak: int)
    requires Agrees(s, w, OneFile(file, handles, free, peak))
    ensures WellFormed(s) && |w.count| == INODE_TABLE_SIZE && Inv(s, w) && LiveFile(s, 1)
    ensures s.inodes[1].size == file.size && w.count[1] == file.blocks && w.bindings == [Binding([97], 1)]
    ensures forall g :: LiveFile(s, g) ==> g == 1
    ensures FreeCount(s.blocks) == free && Below(s.blocks, peak) && Tight(s, w, 1)
    ensures forall h :: h in handles ==>
              && ValidHandle(h) && s.fileTs[h] == TAKEN && s.files[h].inumber == 1 && handles[h].file == 1
              && Pos(s.files[h]) == handles[h].pos && s.files[h].boffset >= 0
    ensures forall p :: p in file.bytes ==> p < FILE_BYTES && FileByte(s, 1, p) == file.bytes[p]
  {
    hide Inv, FreeCount, FileByte;
    assert 1 in OneFile(file, handles, free, peak).files;
  }

  // ---------------------------------------------------------------------------
  // A read at the end of the file
  // ---------------------------------------------------------------------------

  function Zeros(n: nat): (r: seq<byte>)
    ensures |r| == n && forall k :: 0 <= k < n ==> r[k] == 0
  {
    seq<byte>(n, _ => 0)
  }

  /** A file of n zero bytes, all written. */
  function ZeroFile(n: nat): F.File {
    F.WriteFile(F.EMPTY_FILE, 0, Zeros(n))
  }

  lemma ZeroFileFacts(n: nat)
    ensures ZeroFile(n).size == n && ZeroFile(n).blocks == (if n == 0 then 0 else (n - 1) / BLOCK_SIZE + 1)
    ensures forall p :: p in ZeroFile(n).bytes <==> 0 <= p < n
    ensures forall p :: p in ZeroFile(n).bytes ==> ZeroFile(n).bytes[p] == 0
    ensures Handle0(0)[0 := F.Handle(1, n)] == Handle0(n)
  {
    assert forall p: nat :: p < n ==> F.Within(p, 0, n);
  }

  /** The flat store with n zero bytes in "/a" and handle 0 behind them. */
  function ZeroStore(n: nat): F.Flat {
    var free := DATA_BLOCKS - 1 - F.Need(ZeroFile(n).blocks);
    OneFile(ZeroFile(n), Handle0(n), free, DATA_BLOCKS - free)
  }

  /** "/a" as it is created. */
  function EmptyStore(): F.Flat {
    OneFile(F.EMPTY_FILE, Handle0(0), DATA_BLOCKS - 1, 1)
  }

  lemma FlatWriteZeros(n: nat)
    requires n <= FILE_BYTES
    ensures Allowed(EmptyStore(), Write(0, Zeros(n))) && F.Write(EmptyStore(), 0, Zeros(n)).0 == ZeroStore(n)
  {
    ZeroFileFacts(n);
    assert 0 in Handle0(0) && Handle0(0)[0] == F.Handle(1, 0) && |Zeros(n)| == n;
    assert F.WriteFile(F.EMPTY_FILE, 0, Zeros(n)) == ZeroFile(n);
    hide F.WriteFile, ZeroFile, Handle0, Zeros;
    FlatWriteOn(F.EMPTY_FILE, Handle0(0), 0, Zeros(n), DATA_BLOCKS - 1, 1);
  }

  lemma WriteZeros(s: State, w: Ledger, n: nat) returns (w': Ledger)
    requires Agrees(s, w, EmptyStore()) && n <= FILE_BYTES
    ensures Agrees(Step(s, Write(0, Zeros(n))), w', ZeroStore(n))
  {
    FlatWriteZeros(n);
    hide Agrees, Step, Allowed, EmptyStore, ZeroStore, Zeros, F.Write;
    w' := StepAgrees(s, w, EmptyStore(), Write(0, Zeros(n)));
  }

  /** A new "/a" with n zero bytes written through handle 0. */
  lemma ZerosRun(s: State, n: nat) returns (w: Ledger)
    requires WellFormed(s) && n <= FILE_BYTES
    ensures Agrees(Run(TfsInit(s).0, [Open(PATH, CREAT), Write(0, Zeros(n))]), w, ZeroStore(n))
  {
    var w1 := CreateFirst(s);
    hide Agrees, TfsInit, Step, Run, OneFile, ZeroStore, Handle0, Zeros;
    w := WriteZeros(Step(TfsInit(s).0, Open(PATH, CREAT)), w1, n);
    RunTwo(TfsInit(s).0, Open(PATH, CREAT), Write(0, Zeros(n)));
  }

  /** Handle 0 stands at the end of a file of 1025 bytes, and a read returns one byte instead of none. */
  ghost predicate ReadsTooMuch(s: State) {
    && WellFormed(s) && s.files[0].inumber == 1 && s.files[0].boffset >= 0
    && Pos(s.files[0]) == s.inodes[1].size == 1025
    && TfsRead(s, 0, [0], 1).2 == Done(1) && !SlicesOut(s, 0, [0], 1)
  }

  lemma ReadAtEnd(s: State, w: Ledger)
    requires Agrees(s, w, OneFile(ZeroFile(1025), Handle0(1025), DATA_BLOCKS - 3, 3))
    ensures ReadsTooMuch(s)
  {
    ZeroFileFacts(1025);
    assert 0 in Handle0(1025);
    hide Agrees, F.WriteFile, OneFile, ReadLoop, Inv, FreeCount, CopiesFit, Below, FileByte, ZeroFile, Slice;
    SeenInTables(s, w, ZeroFile(1025), Handle0(1025), DATA_BLOCKS - 3, 3);
    BelowFits(s, w, 1, 1025, 1, 3);
    ReadLoopSlices(s, w, 0, [0], 0, 1, 1);
  }

  lemma ReadAtEndRun(s: State)
    requires WellFormed(s)
    ensures ReadsTooMuch(Run(TfsInit(s).0, [Open(PATH, CREAT), Write(0, Zeros(1025))]))
  {
    ZeroFileFacts(1025);
    hide Agrees, TfsInit, Run, OneFile, ReadsTooMuch, ZeroFile, Handle0;
    var w := ZerosRun(s, 1025);
    ReadAtEnd(Run(TfsInit(s).0, [Open(PATH, CREAT), Write(0, Zeros(1025))]), w);
  }

  // ---------------------------------------------------------------------------
  // A read to the end past block 0
  // ---------------------------------------------------------------------------

  const READ_ON: seq<Op> := [Open(PATH, PLAIN), Read(1, Zeros(1500), 1500)]

  /** Handle 1 stands at 1500 of 2000 bytes, and a read of up to 4096 bytes returns 1524 instead of 500. */
  ghost predicate ReadsPastEnd(s: State) {
    && WellFormed(s) && s.files[1].inumber == 1 && Pos(s.files[1]) == 1500 && s.inodes[1].size == 2000
    && TfsRead(s, 1, Zeros(4096), 4096).2 == Done(1524)
  }

  lemma ReadPastBlock(s: State, w: Ledger)
    requires Agrees(s, w, OneFile(ZeroFile(2000), Handle01(2000, 1500), DATA_BLOCKS - 3, 3))
    ensures ReadsPastEnd(s)
  {
    ZeroFileFacts(2000);
    assert 1 in Handle01(2000, 1500) && Handle01(2000, 1500)[1].pos == 1500;
    hide Agrees, OneFile, Inv, FreeCount, Below, Tight, FileByte, ZeroFile, Handle01, ReadsPastEnd;
    SeenInTables(s, w, ZeroFile(2000), Handle01(2000, 1500), DATA_BLOCKS - 3, 3);
    ReadTwoRounds(s, w);
  }

  lemma ReadTwoRounds(s: State, w: Ledger)
    requires WellFormed(s) && Inv(s, w) && |w.count| == INODE_TABLE_SIZE && LiveFile(s, 1) && w.count[1] == 2
    requires s.files[1].inumber == 1 && Pos(s.files[1]) == 1500 && s.files[1].boffset >= 0 && s.inodes[1].size == 2000
    requires FreeCount(s.blocks) == DATA_BLOCKS - 3 && Below(s.blocks, 3)
    ensures ReadsPastEnd(s)
  {
    hide Inv, FreeCount, ReadLoop;
    assert s.files[1].boffset == 1 && s.files[1].offset == 476;
    assert ReadLength(s, 1, 4096) == 1524;
    assert Below(s.blocks, 4);
    hide Below;
    ReadCompletes(s, w, 1, Zeros(4096), 0, 1524, 1524, 4);
  }

  /** The flat store after reading 1500 of the zeros through handle 1. */
  lemma FlatReadOn()
    ensures var a := OneFile(ZeroFile(2000), Handle01(2000, 0), DATA_BLOCKS - 3, 3);
            && Allowed(a, Read(1, Zeros(1500), 1500)) && Fits(a, Read(1, Zeros(1500), 1500))
            && FlatStep(a, Read(1, Zeros(1500), 1500)).0 == OneFile(ZeroFile(2000), Handle01(2000, 1500), DATA_BLOCKS - 3, 3)
  {
    ZeroFileFacts(2000);
    var a := OneFile(ZeroFile(2000), Handle01(2000, 0), DATA_BLOCKS - 3, 3);
    assert a.handles[1] == F.Handle(1, 0) && a.files[1] == ZeroFile(2000);
    assert F.Left(a, 1, 1500) == 1500;
    assert a.handles[1 := F.Handle(1, 1500)] == Handle01(2000, 1500);
  }

  lemma ReadOn(s: State, w: Ledger) returns (w': Ledger)
    requires Agrees(s, w, OneFile(ZeroFile(2000), Handle01(2000, 0), DATA_BLOCKS - 3, 3))
    ensures Agrees(Step(s, Read(1, Zeros(1500), 1500)), w', OneFile(ZeroFile(2000), Handle01(2000, 1500), DATA_BLOCKS - 3, 3))
  {
    FlatReadOn();
    var a := OneFile(ZeroFile(2000), Handle01(2000, 0), DATA_BLOCKS - 3, 3);
    hide Agrees, OneFile, Step, FlatStep, Allowed, Fits, Zeros, ZeroFile, Handle01;
    FitsIsInside(s, w, a, Read(1, Zeros(1500), 1500));
    w' := StepAgrees(s, w, a, Read(1, Zeros(1500), 1500));
  }

  lemma ReadPastBlockRun(s: State)
    requires WellFormed(s)
    ensures ReadsPastEnd(Run(TfsInit(s).0, [Open(PATH, CREAT), Write(0, Zeros(2000))] + READ_ON))
  {
    ZeroFileFacts(2000);
    assert F.Need(ZeroFile(2000).blocks) == 2;
    hide Agrees, TfsInit, Run, OneFile, ReadsPastEnd, ZeroFile, Handle0, Handle01, Step, Zeros;
    var w1 := ZerosRun(s, 2000);
    var s1 := Run(TfsInit(s).0, [Open(PATH, CREAT), Write(0, Zeros(2000))]);
    var w2 := OpenAgain(s1, w1, ZeroFile(2000), 2000, DATA_BLOCKS - 3, 3, false);
    var w3 := ReadOn(Step(s1, Open(PATH, PLAIN)), w2);
    RunTwo(s1, Open(PATH, PLAIN), Read(1, Zeros(1500), 1500));
    RunAppend(TfsInit(s).0, [Open(PATH, CREAT), Write(0, Zeros(2000))], READ_ON);
    ReadPastBlock(Run(s1, READ_ON), w3);
  }

  // ---------------------------------------------------------------------------
  // A truncation that loses a block
  // ---------------------------------------------------------------------------

  /** Handles play no part in the ledger. */
  lemma LedgerIgnoresHandles(s: State, s': State, w: Ledger)
    requires WellFormed(s) && WellFormed(s') && s' == s.(files := s'.files, fileTs := s'.fileTs) && Inv(s', w)
    ensures Inv(s, w)
  {
    forall g, i | ValidInumber(g) && 0 <= i <= INDEX_SLOT
      ensures Ptr(s', g, i) == Ptr(s, g, i)
    {
    }
    assert Owners(s, w) by {
      forall b | 0 <= b < DATA_BLOCKS && w.owner[b].Slot?
        ensures Ptr(s, w.owner[b].inode, w.owner[b].index) == b
      {
        assert Ptr(s', w.owner[b].inode, w.owner[b].index) == b;
      }
    }
  }

  /** "/a" is empty, and handle 0 stands at byte 1 of it. */
  ghost predicate EmptyUnderHandle(s: State, w: Ledger) {
    && WellFormed(s) && Inv(s, w) && |w.count| == INODE_TABLE_SIZE && w.bindings == [Binding([97], 1)]
    && LiveFile(s, 1) && s.inodes[1].size == 0 && w.count[1] == 0 && s.inodes[1].dataBlock == -1
    && FreeCount(s.blocks) > 0
    && s.files[0].inumber == 1 && s.files[0].boffset == 0 && s.files[0].offset == 1
  }

  /** Size 0 and yet a block. */
  ghost predicate BlockAtSizeZero(s: State, w: Ledger) {
    && WellFormed(s) && Inv(s, w) && |w.count| == INODE_TABLE_SIZE && w.bindings == [Binding([97], 1)]
    && LiveFile(s, 1) && !SizedAt(s, w, 1)
  }

  /** A byte read past the end of an emptied file: the read maps a block at size 0. */
  lemma ReadPastEnd(s: State, w: Ledger) returns (w': Ledger)
    requires EmptyUnderHandle(s, w)
    ensures TfsRead(s, 0, [0], 1).2 == Done(1) && BlockAtSizeZero(Step(s, Read(0, [0], 1)), w')
  {
    hide Owners, Shapes, Root, InodeUpdate, FreeCount, Ptr;
    w' := InodeUpdateEffect(s, w, 0);
    var (s1, p) := InodeUpdate(s, 0);
    assert ReadLength(s, 0, 1) == 1;
    AdvanceKeeps(s1, w', 0, 1);
    var s' := Advance(s1, 0, 1);
    var dst := Splice([0], 0, s1.data[p.at..p.at + 1]);
    assert ReadLoop(s', 0, dst, 1, 0, 1) == (s', dst, Done(1));
    assert ReadLoop(s, 0, [0], 0, 1, 1) == ReadLoop(s', 0, dst, 1, 0, 1);
  }

  lemma SeenEmpty(s: State, w: Ledger)
    requires Agrees(s, w, OneFile(F.EMPTY_FILE, Handle01(1, 0), DATA_BLOCKS - 1, 2))
    ensures EmptyUnderHandle(s, w)
  {
    assert 0 in Handle01(1, 0) && Handle01(1, 0)[0].pos == 1;
    hide Agrees, OneFile, Inv, FreeCount, Below, FileByte, Handle01;
    SeenInTables(s, w, F.EMPTY_FILE, Handle01(1, 0), DATA_BLOCKS - 1, 2);
  }

  /** "/a" emptied while handle 0 stands at 1. */
  lemma EmptiedRun(s: State) returns (w: Ledger)
    requires WellFormed(s)
    ensures EmptyUnderHandle(Step(Run(TfsInit(s).0, ONE_BYTE), Open(PATH, TRUNC)), w)
  {
    var w1 := OneByteRun(s);
    assert F.Need(ByteOne().blocks) == 1 && F.Need(0) == 0;
    hide Agrees, TfsInit, Run, OneFile, Step, ByteOne, Handle01, Handle0, EmptyUnderHandle, F.Need;
    var s1 := Run(TfsInit(s).0, ONE_BYTE);
    w := OpenAgain(s1, w1, ByteOne(), 1, DATA_BLOCKS - 2, 2, true);
    SeenEmpty(Step(s1, Open(PATH, TRUNC)), w);
  }

  /** The second truncation of the run below. */
  lemma SecondTruncation(s: State, w: Ledger)
    requires BlockAtSizeZero(s, w)
    ensures forall w' :: !Inv(Step(s, Open(PATH, TRUNC)), w')
  {
    hide Inv, SizedAt, TfsOpen, OpenExisting;
    TruncateExactIff(s, w, 1, TRUNC);
    TruncateOpened(s, w);
    forall w'
      ensures !Inv(Step(s, Open(PATH, TRUNC)), w')
    {
      if Inv(Step(s, Open(PATH, TRUNC)), w') {
        LedgerIgnoresHandles(OpenExisting(s, 1, TRUNC).0, Step(s, Open(PATH, TRUNC)), w');
      }
    }
  }

  const READ_AND_EMPTY: seq<Op> := [Open(PATH, TRUNC), Read(0, [0], 1), Open(PATH, TRUNC)]

  lemma LosesBlock(s: State, w: Ledger)
    requires WellFormed(s) && EmptyUnderHandle(Step(s, Open(PATH, TRUNC)), w)
    ensures forall w' :: !Inv(Run(s, READ_AND_EMPTY), w')
  {
    hide Run, Inv, Step, TfsRead, EmptyUnderHandle, BlockAtSizeZero;
    var s1 := Step(s, Open(PATH, TRUNC));
    var w1 := ReadPastEnd(s1, w);
    SecondTruncation(Step(s1, Read(0, [0], 1)), w1);
    RunThree(s, Open(PATH, TRUNC), Read(0, [0], 1), Open(PATH, TRUNC));
  }

  /**
   Truncating "/a" while a handle stands at 1, reading through that handle, and
   truncating again leaves a TAKEN block that no slot leads to.
   */
  lemma TruncateLosesBlock(s: State)
    requires WellFormed(s)
    ensures forall w :: !Inv(Run(TfsInit(s).0, ONE_BYTE + READ_AND_EMPTY), w)
  {
    hide TfsInit, Run, Inv, Step, EmptyUnderHandle;
    var w := EmptiedRun(s);
    LosesBlock(Run(TfsInit(s).0, ONE_BYTE), w);
    RunAppend(TfsInit(s).0, ONE_BYTE, READ_AND_EMPTY);
  }

  lemma RunThree(s: State, op1: Op, op2: Op, op3: Op)
    requires WellFormed(s)
    ensures Run(s, [op1, op2, op3]) == Step(Step(Step(s, op1), op2), op3)
  {
    hide Step;
    assert [op1, op2, op3][1..] == [op2, op3];
    RunTwo(Step(s, op1), op2, op3);
  }

  /** Opening "/a" to truncate is the truncation and perhaps a handle. */
  lemma TruncateOpened(s: State, w: Ledger)
    requires Inv(s, w) && LiveFile(s, 1) && w.bindings == [Binding([97], 1)]
    ensures var s1 := OpenExisting(s, 1, TRUNC).0;
            var s' := TfsOpen(s, PATH, TRUNC).0;
            s' == s1.(files := s'.files, fileTs := s'.fileTs)
  {
    PathName();
    hide Owners, Shapes, Root, OpenExisting, FindInDir;
    LookupFindsLive(s, w, PATH);
    assert Lookup(w.bindings, [97]) == 1;
  }
}
