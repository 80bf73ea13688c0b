/**
 Part one refines flat files over whole runs: from tfs_init, every guarded
 sequence of calls answers as FlatStore does, through direct and indirect blocks,
 truncation and creation, and the free blocks are those of its accounts.
 */
module StoreRefinement {
  import opened Memory
  import opened Directory
  import opened StoreModel
  import opened Numbering
  import opened StoreOwnership
  import opened StoreAllocation
  import opened StoreUpdate
  import opened StoreWrite
  import opened StoreSplice
  import opened StoreRead
  import opened StoreOpen
  import opened StoreRuns
  import opened StoreHistory
  import F = FlatStore

  // ---------------------------------------------------------------------------
  // What the tables stand for
  // ---------------------------------------------------------------------------

  /** File f has the size, the blocks and the written bytes of `file`. */
  ghost predicate FileAgrees(s: State, w: Ledger, f: int, file: F.File)
    requires WellFormed(s) && |w.count| == INODE_TABLE_SIZE && ValidInumber(f)
  {
    && s.inodes[f].size == file.size && w.count[f] == file.blocks <= FILE_BLOCKS && Tight(s, w, f)
    && (forall p :: p in file.bytes ==> 0 <= p < file.blocks * BLOCK_SIZE && FileByte(s, f, p) == file.bytes[p])
  }

  ghost predicate FilesAgree(s: State, w: Ledger, files: map<int, F.File>)
    requires WellFormed(s) && |w.count| == INODE_TABLE_SIZE
  {
    && (forall f :: f in files <==> LiveFile(s, f))
    && (forall f :: f in files ==> FileAgrees(s, w, f, files[f]))
  }

  ghost predicate HandlesAgree(s: State, handles: map<int, F.Handle>)
    requires WellFormed(s)
  {
    && (forall h :: h in handles <==> ValidHandle(h) && s.fileTs[h] == TAKEN)
    && (forall h :: h in handles ==>
          s.files[h].inumber == handles[h].file && Pos(s.files[h]) == handles[h].pos && LiveFile(s, s.files[h].inumber))
  }

  /** The tables, with an exact ledger, stand for the flat store. */
  ghost predicate Agrees(s: State, w: Ledger, a: F.Flat) {
    && RunInv(s, w)
    && a.names == w.bindings && a.free == FreeCount(s.blocks)
    && FilesAgree(s, w, a.files) && HandlesAgree(s, a.handles)
    && Below(s.blocks, a.peak) && a.peak >= DATA_BLOCKS - a.free
  }

  // ---------------------------------------------------------------------------
  // Calls
  // ---------------------------------------------------------------------------

  /** What the caller gets: the result, and the buffer after a read. */
  function Answer(s: State, op: Op): (Outcome, seq<byte>)
    requires WellFormed(s)
  {
    match op
    case Open(path, flags) => (var h := TfsOpen(s, path, flags).1; if h < 0 then Failed else Done(h), [])
    case Close(h) => (if TfsClose(s, h).1 == 0 then Done(0) else Failed, [])
    case Write(h, buf) => (TfsWrite(s, h, buf).1, [])
    case Read(h, dst, len) =>
      if len <= |dst| then (TfsRead(s, h, dst, len).2, TfsRead(s, h, dst, len).1) else (Failed, dst)
  }

  /** What the flat store must allow. Opening and closing are free, except that an append position must fit an int. */
  ghost predicate Allowed(a: F.Flat, op: Op) {
    match op
    case Open(path, flags) =>
      flags.append && ValidPathname(path) && Lookup(a.names, NameOf(path)) in a.files ==>
        a.files[Lookup(a.names, NameOf(path))].size <= INT_MAX
    case Close(_) => true
    case Write(h, buf) =>
      ValidHandle(h) ==>
        && F.OpenAt(a, h)
        && var file := a.files[a.handles[h].file];
           var pos := a.handles[h].pos;
        && pos + |buf| <= FILE_BYTES && file.size + |buf| < SIZE_MOD
        && F.Need(F.WriteFile(file, pos, buf).blocks) - F.Need(file.blocks) <= a.free
    case Read(h, dst, len) =>
      len <= |dst| && (ValidHandle(h) ==>
        && F.OpenAt(a, h)
        && var file := a.files[a.handles[h].file];
           var pos := a.handles[h].pos;
        && pos <= file.size && (pos < BLOCK_SIZE || len <= file.size - pos)
        && F.AllWritten(file.bytes, pos, F.Left(a, h, len)) && pos + F.Left(a, h, len) <= FILE_BYTES)
  }

  /** The one thing the flat store cannot see: no copy of a read runs past fs_data. */
  ghost predicate CopiesInside(s: State, op: Op)
    requires WellFormed(s)
  {
    op.Read? && ValidHandle(op.h) && LiveFile(s, s.files[op.h].inumber) ==>
      var n := ReadLength(s, op.h, op.len);
      0 <= Pos(s.files[op.h]) && Pos(s.files[op.h]) + n <= FILE_BYTES ==>
        CopiesFit(s, s.files[op.h].inumber, Pos(s.files[op.h]), n)
  }

  /** The flat store after a call, and its answer. */
  ghost function FlatStep(a: F.Flat, op: Op): (F.Flat, (Outcome, seq<byte>))
    requires Allowed(a, op)
  {
    match op
    case Open(path, flags) => (F.Open(a, path, flags).0, (F.Open(a, path, flags).1, []))
    case Close(h) => (F.Close(a, h).0, (F.Close(a, h).1, []))
    case Write(h, buf) =>
      if ValidHandle(h) then (F.Write(a, h, buf).0, (F.Write(a, h, buf).1, [])) else (a, (Failed, []))
    case Read(h, dst, len) =>
      if ValidHandle(h) then var (a', r, bytes) := F.Read(a, h, dst, len); (a', (r, bytes)) else (a, (Failed, dst))
  }

  // ---------------------------------------------------------------------------
  // Writing
  // ---------------------------------------------------------------------------

  /** The blocks a write has to allocate, by need(k). */
  lemma NeededIsNeed(s: State, w: Ledger, h: nat, n: nat)
    requires WellFormed(s) && h < MAX_OPEN_FILES && ValidInumber(s.files[h].inumber) && |w.count| == INODE_TABLE_SIZE
    requires 0 <= Pos(s.files[h]) && Tight(s, w, s.files[h].inumber)
    ensures var k := w.count[s.files[h].inumber];
            Needed(s, w, h, n) == F.Need(Max(k, BlocksFor(Pos(s.files[h]), n))) - F.Need(k)
  {
  }

  /** An untouched file still agrees. */
  lemma UntouchedAgrees(s: State, w: Ledger, s': State, w': Ledger, g: int, file: F.File)
    requires WellFormed(s) && WellFormed(s') && |w.count| == |w'.count| == INODE_TABLE_SIZE && ValidInumber(g)
    requires FileAgrees(s, w, g, file) && SameFile(s, w, s', w', g)
    ensures FileAgrees(s', w', g, file)
  {
    hide FileBlock;
    forall p | p in file.bytes
      ensures FileByte(s', g, p) == FileByte(s, g, p)
    {
      assert 0 <= p / BLOCK_SIZE < w.count[g];
      assert FileBlock(s', g, p / BLOCK_SIZE) == FileBlock(s, g, p / BLOCK_SIZE);
    }
  }

  lemma OthersUntouched(s: State, w: Ledger, s': State, w': Ledger, f: int, h: nat, g: int)
    requires WellFormed(s) && WellFormed(s') && |w.count| == |w'.count| == INODE_TABLE_SIZE
    requires ValidInumber(f) && h < MAX_OPEN_FILES && LiveFile(s, g) && g != f && w.count[g] <= FILE_BLOCKS
    requires OnlyFile(s, s', f, h) && KeepsOthers(s, w, s', w', f)
    ensures SameFile(s, w, s', w', g)
  {
    hide FileBlock;
  }

  lemma WriteAgrees(s: State, w: Ledger, a: F.Flat, h: int, buf: seq<byte>) returns (w': Ledger)
    requires Agrees(s, w, a) && Allowed(a, Write(h, buf))
    ensures var (a', r) := FlatStep(a, Write(h, buf));
            Agrees(TfsWrite(s, h, buf).0, w', a') && Answer(s, Write(h, buf)) == r
  {
    if !ValidHandle(h) {
      w' := w;
    } else {
      w' := OpenWriteAgrees(s, w, a, h, buf);
    }
  }

  lemma OpenWriteAgrees(s: State, w: Ledger, a: F.Flat, h: nat, buf: seq<byte>) returns (w': Ledger)
    requires Agrees(s, w, a) && Allowed(a, Write(h, buf)) && h < MAX_OPEN_FILES
    ensures var (a', r) := F.Write(a, h, buf);
            Agrees(TfsWrite(s, h, buf).0, w', a') && TfsWrite(s, h, buf).1 == r
  {
    hide Inv, FreeCount, WriteLoop, FileByte, FileBlock, TotalUsed, Needed, Accounted;
    assert SizedAt(s, w, s.files[h].inumber);
    NeededIsNeed(s, w, h, |buf|);
    w' := WriteLoopSplices(s, w, h, buf, |buf|);
    var s' := WriteLoop(s, h, buf, |buf|).0;
    NeededBalanced(s, w, s', w', h, buf);
    DataOpKeeps(s, w, s', w', s.files[h].inumber, h);
    FilesAfterWrite(s, w, s', w', a, h, buf);
    hide FilesAgree, AllSized;
    WriteLowest(s, h, buf, |buf|);
  }

  /** After a completed write the files are those of the flat store's write. */
  lemma FilesAfterWrite(s: State, w: Ledger, s': State, w': Ledger, a: F.Flat, h: nat, buf: seq<byte>)
    requires Agrees(s, w, a) && h < MAX_OPEN_FILES && F.OpenAt(a, h) && Room(s, h, |buf|)
    requires WriteDone(s, w, s', w', h, buf) && Tight(s', w', s.files[h].inumber)
    ensures WellFormed(s') && |w'.count| == INODE_TABLE_SIZE && FilesAgree(s', w', F.Write(a, h, buf).0.files)
  {
    hide Inv, FreeCount, FileByte, FileBlock, TotalUsed, Needed, Accounted, Tight;
    var f := s.files[h].inumber;
    var files := F.Write(a, h, buf).0.files;
    forall g | g in files
      ensures FileAgrees(s', w', g, files[g])
    {
      if g == f {
        WrittenAgrees(s, w, s', w', h, buf, a.files[f]);
      } else {
        OthersUntouched(s, w, s', w', f, h, g);
        UntouchedAgrees(s, w, s', w', g, a.files[g]);
      }
    }
    assert forall g :: LiveFile(s', g) <==> LiveFile(s, g);
  }

  /** What DataOpKeeps asks of a completed write. */
  lemma NeededBalanced(s: State, w: Ledger, s': State, w': Ledger, h: nat, buf: seq<byte>)
    requires WellFormed(s) && Room(s, h, |buf|) && |w.count| == INODE_TABLE_SIZE
    requires Tight(s, w, s.files[h].inumber) && SizedAt(s, w, s.files[h].inumber)
    requires WriteDone(s, w, s', w', h, buf)
    ensures Balanced(s, w, s', w', s.files[h].inumber) && SizedAt(s', w', s.files[h].inumber)
    ensures Tight(s', w', s.files[h].inumber)
  {
    hide Inv, FreeCount, Written;
  }

  lemma WrittenAgrees(s: State, w: Ledger, s': State, w': Ledger, h: nat, buf: seq<byte>, file: F.File)
    requires WellFormed(s) && Room(s, h, |buf|) && |w.count| == INODE_TABLE_SIZE
    requires FileAgrees(s, w, s.files[h].inumber, file) && WriteDone(s, w, s', w', h, buf)
    requires Tight(s', w', s.files[h].inumber)
    ensures FileAgrees(s', w', s.files[h].inumber, F.WriteFile(file, Pos(s.files[h]), buf))
  {
    hide Inv, FreeCount, FileByte, FileBlock, Tight, Needed;
    var f := s.files[h].inumber;
    var pos := Pos(s.files[h]);
    var after := F.WriteFile(file, pos, buf);
    forall p | p in after.bytes
      ensures 0 <= p < after.blocks * BLOCK_SIZE && FileByte(s', f, p) == after.bytes[p]
    {
      if !(pos <= p < pos + |buf|) {
        assert p in file.bytes;
      }
    }
  }

  // ---------------------------------------------------------------------------
  // Reading and closing
  // ---------------------------------------------------------------------------

  /** Nothing about files depends on the open file table. */
  lemma TableAgrees(s: State, w: Ledger, s': State, files: map<int, F.File>)
    requires WellFormed(s) && |w.count| == INODE_TABLE_SIZE && FilesAgree(s, w, files) && WellFormed(s')
    requires s' == s.(files := s'.files, fileTs := s'.fileTs)
    ensures FilesAgree(s', w, files)
  {
    forall f, p | f in files && p in files[f].bytes
      ensures FileByte(s', f, p) == FileByte(s, f, p)
    {
      assert Ptr(s', f, p / BLOCK_SIZE) == Ptr(s, f, p / BLOCK_SIZE);
    }
    assert forall f :: f in files ==> FileAgrees(s, w, f, files[f]) ==> FileAgrees(s', w, f, files[f]);
  }

  /** The slice of the flat file is the bytes written there. */
  lemma SliceIsBytes(s: State, w: Ledger, f: int, file: F.File, pos: nat, n: nat)
    requires WellFormed(s) && |w.count| == INODE_TABLE_SIZE && ValidInumber(f) && FileAgrees(s, w, f, file)
    requires pos + n <= FILE_BYTES && F.AllWritten(file.bytes, pos, n)
    ensures Slice(s, f, pos, n) == F.Bytes(file.bytes, pos, n)
    ensures n > 0 ==> pos + n <= file.blocks * BLOCK_SIZE
  {
    hide FileByte;
    if n > 0 {
      assert pos + n - 1 in file.bytes;
    }
    forall k | 0 <= k < n
      ensures Slice(s, f, pos, n)[k] == F.Bytes(file.bytes, pos, n)[k]
    {
      assert pos + k in file.bytes;
    }
  }

  lemma ReadAgrees(s: State, w: Ledger, a: F.Flat, h: int, dst: seq<byte>, len: nat)
    requires Agrees(s, w, a) && Allowed(a, Read(h, dst, len)) && CopiesInside(s, Read(h, dst, len))
    ensures var (a', r) := FlatStep(a, Read(h, dst, len));
            Agrees(TfsRead(s, h, dst, len).0, w, a') && Answer(s, Read(h, dst, len)) == r
  {
    hide Inv, FreeCount, ReadLoop, FileByte, CopiesFit, Slice, Accounted, AllSized;
    if ValidHandle(h) {
      var f := s.files[h].inumber;
      var pos := a.handles[h].pos;
      var n := F.Left(a, h, len);
      ReadLengthExact(s, h, len);
      assert ReadLength(s, h, len) == n;
      SliceIsBytes(s, w, f, a.files[f], pos, n);
      ReadLoopSlices(s, w, h, dst, 0, n, n);
      var s' := ReadLoop(s, h, dst, 0, n, n).0;
      assert s'.fileTs == s.fileTs && s' == s.(files := s'.files, fileTs := s'.fileTs);
      TableKeeps(s, w, s');
      TableAgrees(s, w, s', a.files);
    }
  }

  lemma CloseAgrees(s: State, w: Ledger, a: F.Flat, h: int)
    requires Agrees(s, w, a)
    ensures var (a', r) := F.Close(a, h);
            Agrees(TfsClose(s, h).0, w, a') && Answer(s, Close(h)) == (r, [])
  {
    hide Inv, AllSized, OpenHandles, Accounted, FilesAgree, FreeCount;
    CloseKeeps(s, w, h);
    TableAgrees(s, w, TfsClose(s, h).0, a.files);
  }

  // ---------------------------------------------------------------------------
  // Opening
  // ---------------------------------------------------------------------------

  lemma AddHandleAgrees(s: State, w: Ledger, a: F.Flat, f: int, pos: nat)
    requires Agrees(s, w, a) && LiveFile(s, f) && pos <= INT_MAX
    ensures var (s', h) := AddToOpenFileTable(s, f, pos);
            var (a', r) := F.AddHandle(a, f, pos);
            Agrees(s', w, a') && h >= -1 && r == if h < 0 then Failed else Done(h)
  {
    hide Inv, AllSized, OpenHandles, Accounted, FilesAgree, FreeCount;
    var s' := AddToOpenFileTable(s, f, pos).0;
    LowestFreeSame(s.fileTs, a.handles, 0);
    AddHandleKeeps(s, w, f, pos);
    TableAgrees(s, w, s', a.files);
  }

  /** An existing file, emptied or not. */
  lemma ExistingAgrees(s: State, w: Ledger, a: F.Flat, f: nat, flags: Flags) returns (w': Ledger)
    requires Agrees(s, w, a) && f in a.files
    ensures var file := if flags.trunc then F.EMPTY_FILE else a.files[f];
            OpenExisting(s, f, flags).1
            && Agrees(OpenExisting(s, f, flags).0, w',
                      a.(files := a.files[f := file], free := a.free + F.Need(a.files[f].blocks) - F.Need(file.blocks)))
  {
    hide Inv, FreeCount, OpenExisting, SameFile, FileByte, AllSized, Accounted, OpenHandles;
    w' := TruncateKeeps(s, w, f, flags);
    var s' := OpenExisting(s, f, flags).0;
    var file := if flags.trunc then F.EMPTY_FILE else a.files[f];
    forall g | g in a.files
      ensures FileAgrees(s', w', g, a.files[f := file][g])
    {
      if flags.trunc && g != f {
        UntouchedAgrees(s, w, s', w', g, a.files[g]);
      }
    }
    TruncateStaysBelow(s, f, flags, a.peak);
    if flags.trunc {
      TruncatedLive(s, w, s', w', f);
    }
  }

  /** Truncation changes neither which files live nor where the handles stand. */
  lemma TruncatedLive(s: State, w: Ledger, s': State, w': Ledger, f: nat)
    requires WellFormed(s) && LiveFile(s, f) && |w.count| == INODE_TABLE_SIZE && Truncated(s, w, s', w', f)
    requires Inv(s, w)
    ensures forall g :: LiveFile(s', g) <==> LiveFile(s, g)
  {
    hide Owners, Shapes, Holds, FreeCount;
  }

  /** The lowest free file number is the inode that inode_create takes. */
  lemma NextNumber(s: State, w: Ledger, files: map<int, F.File>)
    requires Inv(s, w) && forall f :: f in files <==> LiveFile(s, f)
    ensures FirstFree(s.inodeTs, 0) == LowestFree(files, 1, INODE_TABLE_SIZE)
    ensures FirstFree(s.inodeTs, 0) != -1 ==> !Live(s, FirstFree(s.inodeTs, 0))
  {
    RootIsTaken(s, w);
    assert FirstFree(s.inodeTs, 0) == FirstFree(s.inodeTs, 1);
    LowestFreeSame(s.inodeTs, files, 1);
  }

  /** A new file, or none when the directory is full or no number is left. */
  lemma CreateAgrees(s: State, w: Ledger, a: F.Flat, path: cstring) returns (w': Ledger)
    requires Agrees(s, w, a) && ValidPathname(path)
    ensures var g := LowestFree(a.files, 1, INODE_TABLE_SIZE);
            var (s', f) := OpenNew(s, path);
            if g < 0 || |a.names| >= MAX_DIR_ENTRIES then f == -1 && Agrees(s', w', a)
            else f == g && LiveFile(s', f)
                 && Agrees(s', w', a.(names := a.names + [Binding(Clip(NameOf(path)), g)],
                                      files := a.files[g := F.EMPTY_FILE]))
  {
    hide FreeCount, OpenNew, SameFile, FilesAgree, AllSized, Accounted, OpenHandles, Inv, LowestFree;
    w' := CreateKeeps(s, w, path);
    var (s', f) := OpenNew(s, path);
    NextNumber(s, w, a.files) by {
      FilesAreLive(s, w, a.files);
    }
    if f == -1 {
      RolledBackAgrees(s, w, s', a.files);
    } else {
      EntriesBounded(s', w');
      NewFileAgrees(s, w, s', w', a.files, f);
    }
  }

  lemma FilesAreLive(s: State, w: Ledger, files: map<int, F.File>)
    requires WellFormed(s) && |w.count| == INODE_TABLE_SIZE && FilesAgree(s, w, files)
    ensures forall f :: f in files <==> LiveFile(s, f)
  {
  }

  lemma NewFileAgrees(s: State, w: Ledger, s': State, w': Ledger, files: map<int, F.File>, f: nat)
    requires WellFormed(s) && WellFormed(s') && |w.count| == |w'.count| == INODE_TABLE_SIZE && FilesAgree(s, w, files)
    requires f < INODE_TABLE_SIZE && s'.inodeTs == s.inodeTs[f := TAKEN] && !Live(s, f) && w'.count[f] == 0
    requires s'.inodes == s.inodes[f := Inode(T_FILE, 0, -1, NoPointers())]
    requires forall g :: LiveFile(s, g) ==> SameFile(s, w, s', w', g)
    ensures FilesAgree(s', w', files[f := F.EMPTY_FILE])
  {
    hide FileByte, SameFile;
    forall g | g in files
      ensures FileAgrees(s', w', g, files[g])
    {
      UntouchedAgrees(s, w, s', w', g, files[g]);
    }
  }

  /** The content of an inode that is free does not matter. */
  lemma RolledBackAgrees(s: State, w: Ledger, s': State, files: map<int, F.File>)
    requires WellFormed(s) && |w.count| == INODE_TABLE_SIZE && FilesAgree(s, w, files) && WellFormed(s')
    requires s'.inodeTs == s.inodeTs && s'.data == s.data && forall g :: Live(s, g) ==> s'.inodes[g] == s.inodes[g]
    ensures FilesAgree(s', w, files)
  {
    forall f, p | f in files && p in files[f].bytes
      ensures FileByte(s', f, p) == FileByte(s, f, p)
    {
      assert Live(s, f) && Ptr(s', f, p / BLOCK_SIZE) == Ptr(s, f, p / BLOCK_SIZE);
    }
    forall f | f in files
      ensures FileAgrees(s', w, f, files[f])
    {
      assert Live(s, f) && FileAgrees(s, w, f, files[f]);
    }
  }

  lemma RootIsTaken(s: State, w: Ledger)
    requires Inv(s, w)
    ensures s.inodeTs[ROOT_DIR_INUM] == TAKEN
    ensures forall g :: LiveFile(s, g) <==> Live(s, g) && g != ROOT_DIR_INUM
  {
  }

  lemma OpenAgrees(s: State, w: Ledger, a: F.Flat, path: cstring, flags: Flags) returns (w': Ledger)
    requires Agrees(s, w, a) && Allowed(a, Open(path, flags))
    ensures var (a', r) := F.Open(a, path, flags);
            Agrees(TfsOpen(s, path, flags).0, w', a') && Answer(s, Open(path, flags)) == (r, [])
  {
    hide RunInv, FilesAgree, HandlesAgree, FreeCount, OpenExisting, OpenNew, AddToOpenFileTable, TfsLookup;
    w' := w;
    if ValidPathname(path) {
      AgreedLookup(s, w, a, path);
      var f := TfsLookup(s, path);
      if f >= 0 {
        w' := ExistingAgrees(s, w, a, f, flags);
        var s1 := OpenExisting(s, f, flags).0;
        var file := if flags.trunc then F.EMPTY_FILE else a.files[f];
        var a1 := a.(files := a.files[f := file], free := a.free + F.Need(a.files[f].blocks) - F.Need(file.blocks));
        AgreedFile(s1, w', a1, f);
        AddHandleAgrees(s1, w', a1, f, if flags.append then file.size else 0);
      } else if flags.creat {
        w' := CreateAgrees(s, w, a, path);
        var (s1, g) := OpenNew(s, path);
        if g != -1 {
          AddHandleAgrees(s1, w', a.(names := a.names + [Binding(Clip(NameOf(path)), g)],
                                     files := a.files[g := F.EMPTY_FILE]), g, 0);
        }
      }
    }
  }

  lemma AgreedLookup(s: State, w: Ledger, a: F.Flat, path: cstring)
    requires Agrees(s, w, a) && ValidPathname(path)
    ensures TfsLookup(s, path) == Lookup(a.names, NameOf(path)) && TfsLookup(s, path) >= -1
    ensures WellFormed(s) && (TfsLookup(s, path) in a.files <==> TfsLookup(s, path) >= 0)
    ensures TfsLookup(s, path) >= 0 ==> ValidInumber(TfsLookup(s, path))
  {
    hide Inv, FreeCount, TfsLookup, FileAgrees;
    LookupFindsLive(s, w, path);
  }

  lemma AgreedFile(s: State, w: Ledger, a: F.Flat, f: int)
    requires Agrees(s, w, a) && f in a.files
    ensures WellFormed(s) && LiveFile(s, f) && s.inodes[f].size == a.files[f].size
  {
    hide Inv, FreeCount, FileByte;
  }

  // ---------------------------------------------------------------------------
  // Runs
  // ---------------------------------------------------------------------------

  /** Each allowed call answers as the flat store does, and the tables go on standing for it. */
  lemma StepAgrees(s: State, w: Ledger, a: F.Flat, op: Op) returns (w': Ledger)
    requires Agrees(s, w, a) && Allowed(a, op) && CopiesInside(s, op)
    ensures var (a', r) := FlatStep(a, op);
            Agrees(Step(s, op), w', a') && Answer(s, op) == r
  {
    hide Agrees, TfsOpen, TfsClose, TfsWrite, TfsRead, F.Open, F.Write, F.Read, CopiesInside;
    match op
    case Open(path, flags) => w' := OpenAgrees(s, w, a, path, flags);
    case Close(h) => CloseAgrees(s, w, a, h); w' := w;
    case Write(h, buf) => w' := WriteAgrees(s, w, a, h, buf);
    case Read(h, dst, len) => ReadAgrees(s, w, a, h, dst, len); w' := w;
  }

  /** The answers to a sequence of calls. */
  function Answers(s: State, ops: seq<Op>): seq<(Outcome, seq<byte>)>
    requires WellFormed(s)
    decreases |ops|
  {
    if ops == [] then [] else [Answer(s, ops[0])] + Answers(Step(s, ops[0]), ops[1..])
  }

  /** The flat store allows every call when it is made. */
  ghost predicate AllAllowed(a: F.Flat, ops: seq<Op>)
    decreases |ops|
  {
    ops != [] ==> Allowed(a, ops[0]) && AllAllowed(FlatStep(a, ops[0]).0, ops[1..])
  }

  /** No read of the run copies past fs_data. */
  ghost predicate AllInside(s: State, ops: seq<Op>)
    requires WellFormed(s)
    decreases |ops|
  {
    ops != [] ==> CopiesInside(s, ops[0]) && AllInside(Step(s, ops[0]), ops[1..])
  }

  /** The flat store after a sequence of calls, and its answers. */
  ghost function FlatRun(a: F.Flat, ops: seq<Op>): (F.Flat, seq<(Outcome, seq<byte>)>)
    requires AllAllowed(a, ops)
    decreases |ops|
  {
    if ops == [] then (a, [])
    else
      var (a1, r) := FlatStep(a, ops[0]);
      var (a2, rs) := FlatRun(a1, ops[1..]);
      (a2, [r] + rs)
  }

  lemma {:induction false} RunAgrees(s: State, w: Ledger, a: F.Flat, ops: seq<Op>) returns (w': Ledger)
    requires Agrees(s, w, a) && AllAllowed(a, ops) && AllInside(s, ops)
    ensures Agrees(Run(s, ops), w', FlatRun(a, ops).0) && Answers(s, ops) == FlatRun(a, ops).1
    decreases |ops|
  {
    hide FilesAgree, HandlesAgree, Inv, AllSized, OpenHandles, Accounted, Allowed, CopiesInside, Step, FlatStep, Answer;
    if ops == [] {
      w' := w;
    } else {
      var w1 := StepAgrees(s, w, a, ops[0]);
      w' := RunAgrees(Step(s, ops[0]), w1, FlatStep(a, ops[0]).0, ops[1..]);
    }
  }

  /** The root directory's block is the only one in use. */
  const INITIAL: F.Flat := F.Flat([], map[], map[], DATA_BLOCKS - 1, 1)

  lemma InitAgrees(s: State)
    requires WellFormed(s)
    ensures Agrees(TfsInit(s).0, InitialLedger(), INITIAL)
  {
    hide Inv, AllSized, OpenHandles, Accounted, FreeCount, ClearEntries;
    InitEstablishes(s);
  }

  /**
   Whole-run refinement of part one. Whatever the tables held before tfs_init,
   every allowed sequence of calls answers exactly as the flat store answers:
   writes splice into flat files, reads return the bytes last written there, and
   truncation empties. At the end the tables stand for the flat store, whose
   free blocks are the FREE ones.
   */
  lemma RunsRefineFlat(s: State, ops: seq<Op>) returns (w: Ledger)
    requires WellFormed(s) && AllAllowed(INITIAL, ops) && AllInside(TfsInit(s).0, ops)
    ensures Agrees(Run(TfsInit(s).0, ops), w, FlatRun(INITIAL, ops).0)
    ensures Answers(TfsInit(s).0, ops) == FlatRun(INITIAL, ops).1
  {
    InitAgrees(s);
    hide Agrees, TfsInit, AllAllowed, AllInside, Run, FlatRun, Answers;
    w := RunAgrees(TfsInit(s).0, InitialLedger(), INITIAL, ops);
  }

  // ---------------------------------------------------------------------------
  // The same in terms of the flat store alone
  // ---------------------------------------------------------------------------

  /**
   Blocks go lowest first, so no block from the peak on was ever in use: a copy
   that starts in the last block below the peak must end inside fs_data.
   */
  ghost predicate Fits(a: F.Flat, op: Op)
    requires Allowed(a, op)
  {
    op.Read? && ValidHandle(op.h) ==>
      (a.peak - 1) * BLOCK_SIZE + a.handles[op.h].pos % BLOCK_SIZE + F.Left(a, op.h, op.len) <= DATA_SIZE
  }

  lemma BelowFits(s: State, w: Ledger, f: int, pos: nat, n: nat, m: int)
    requires Inv(s, w) && LiveFile(s, f) && pos + n <= FILE_BYTES && Below(s.blocks, m)
    requires (m - 1) * BLOCK_SIZE + pos % BLOCK_SIZE + n <= DATA_SIZE
    ensures CopiesFit(s, f, pos, n)
  {
    hide Shapes, Root;
    forall i | 0 <= i < FILE_BLOCKS && pos / BLOCK_SIZE <= i && i * BLOCK_SIZE < pos + n
      ensures (Ptr(s, f, i) - i) * BLOCK_SIZE + pos + n <= DATA_SIZE
    {
      assert Ptr(s, f, i) != -1 ==> ValidBlock(Ptr(s, f, i)) && s.blocks[Ptr(s, f, i)] == TAKEN;
      RootIsTaken(s, w);
    }
  }

  lemma FitsIsInside(s: State, w: Ledger, a: F.Flat, op: Op)
    requires Agrees(s, w, a) && Allowed(a, op) && Fits(a, op)
    ensures CopiesInside(s, op)
  {
    hide Inv, AllSized, OpenHandles, Accounted, FreeCount, CopiesFit, FileByte, Below;
    if op.Read? && ValidHandle(op.h) {
      var f := s.files[op.h].inumber;
      ReadLengthExact(s, op.h, op.len);
      BelowFits(s, w, f, a.handles[op.h].pos, F.Left(a, op.h, op.len), a.peak);
    }
  }

  /** Every read of the run fits below the peak. */
  ghost predicate AllFit(a: F.Flat, ops: seq<Op>)
    requires AllAllowed(a, ops)
    decreases |ops|
  {
    ops != [] ==> Fits(a, ops[0]) && AllFit(FlatStep(a, ops[0]).0, ops[1..])
  }

  lemma {:induction false} AllFitIsInside(s: State, w: Ledger, a: F.Flat, ops: seq<Op>)
    requires Agrees(s, w, a) && AllAllowed(a, ops) && AllFit(a, ops)
    ensures AllInside(s, ops)
    decreases |ops|
  {
    hide FilesAgree, HandlesAgree, Inv, AllSized, OpenHandles, Accounted, Allowed, CopiesInside, Step, FlatStep, Answer, Fits,
         Below;
    if ops != [] {
      FitsIsInside(s, w, a, ops[0]);
      var w1 := StepAgrees(s, w, a, ops[0]);
      AllFitIsInside(Step(s, ops[0]), w1, FlatStep(a, ops[0]).0, ops[1..]);
    }
  }

  /** So whole runs refine the flat store under conditions on the flat store only. */
  lemma FlatRunsRefine(s: State, ops: seq<Op>) returns (w: Ledger)
    requires WellFormed(s) && AllAllowed(INITIAL, ops) && AllFit(INITIAL, ops)
    ensures Agrees(Run(TfsInit(s).0, ops), w, FlatRun(INITIAL, ops).0)
    ensures Answers(TfsInit(s).0, ops) == FlatRun(INITIAL, ops).1
  {
    InitAgrees(s);
    hide Agrees, TfsInit, AllAllowed, AllInside, AllFit, Run, FlatRun, Answers;
    AllFitIsInside(TfsInit(s).0, InitialLedger(), INITIAL, ops);
    w := RunsRefineFlat(s, ops);
  }
}
