/**
 The tables of part two over all runs, wherever handles stand: truncation under
 other handles, reads and writes past the end, failed opens and invalid closes
 keep them consistent, and space never runs out.
 */
module TfsTables {
  import opened Memory
  import opened Directory
  import opened StoreModel
  import opened Numbering
  import opened TfsInvariant
  import opened TfsRefinement
  import opened TfsRuns
  import T = TfsModel
  import A = AbstractFs

  // ---------------------------------------------------------------------------
  // Data through any open handle
  // ---------------------------------------------------------------------------

  /** A read, of any length at any offset, moves its handle and nothing else. */
  lemma ReadKeepsTables(s: T.Tables, w: Book, h: int, dst: seq<byte>, len: nat)
    requires Inv(s, w) && len <= |dst|
    ensures Inv(T.Read(s, h, dst, len).0, w)
  {
    hide BlocksOk, RootOk, NamesOk, CountTaken;
    var s' := T.Read(s, h, dst, len).0;
    assert s' == s.(files := s'.files, fileTs := s'.fileTs, openCount := s'.openCount);
    HandleTableKeeps(s, w, s');
  }

  /** Past byte 1024 a write leaves the arrays, whatever its length. */
  lemma WriteFarFaults(s: T.Tables, h: nat, buf: seq<byte>)
    requires T.Shaped(s) && h < MAX_OPEN_FILES && ValidInumber(s.files[h].inumber) && s.files[h].offset > BLOCK_SIZE
    requires ValidBlock(T.EnsureBlock(s, s.files[h].inumber).inodes[s.files[h].inumber].dataBlock)
    ensures T.Write(s, h, buf).1 == Fault
  {
    var n := T.WriteLength(|buf|, s.files[h].offset);
    assert n > 0 && s.files[h].offset + n > DATA_SIZE;
  }

  /** A length that overflows when added to the offset ends at byte 1024 or leaves the arrays. */
  lemma WriteHugeOutcome(s: T.Tables, h: nat, buf: seq<byte>)
    requires T.Shaped(s) && h < MAX_OPEN_FILES && ValidInumber(s.files[h].inumber) && s.files[h].offset <= BLOCK_SIZE
    requires |buf| + s.files[h].offset >= SIZE_MOD
    requires ValidBlock(T.EnsureBlock(s, s.files[h].inumber).inodes[s.files[h].inumber].dataBlock)
    ensures T.Write(s, h, buf) == T.Write(s, h, buf[..BLOCK_SIZE - s.files[h].offset]) || T.Write(s, h, buf).1 == Fault
  {
    hide T.EnsureBlock;
    var offset := s.files[h].offset;
    var k := BLOCK_SIZE - offset;
    var n := T.WriteLength(|buf|, offset);
    assert T.WriteLength(k, offset) == k;
    if Wrap(|buf| + offset) > BLOCK_SIZE {
      assert n == k && |buf[..k]| == k && buf[..k][..k] == buf[..k];
    } else {
      assert n == |buf| && offset + n > DATA_SIZE;
    }
  }

  /**
   A write through an open handle never returns -1. Up to byte 1024 it returns
   what fits, and past it it leaves the arrays; a completed write keeps the tables.
   */
  lemma WriteOnOpenHandle(s: T.Tables, w: Book, h: nat, buf: seq<byte>) returns (w': Book)
    requires Inv(s, w) && IsOpen(s, h)
    ensures var (s', r) := T.Write(s, h, buf);
            var offset := s.files[h].offset;
            && r != Failed && (r.Done? ==> Inv(s', w'))
            && (|buf| + offset < SIZE_MOD ==>
                  r == if offset <= BLOCK_SIZE then Done(Min(|buf|, BLOCK_SIZE - offset)) else Fault)
  {
    hide BlocksOk, NamesOk, RootOk, CountTaken, T.Write, T.EnsureBlock;
    var offset := s.files[h].offset;
    w' := w;
    var b := BlockToWrite(s, w, h);
    EnsuredBlock(s, w, h, b);
    if offset > BLOCK_SIZE {
      WriteFarFaults(s, h, buf);
    } else if |buf| + offset >= SIZE_MOD {
      WriteHugeOutcome(s, h, buf);
      w' := WriteNearKeeps(s, w, h, buf[..BLOCK_SIZE - offset]);
    } else {
      w' := WriteNearKeeps(s, w, h, buf);
    }
  }

  lemma EnsuredBlock(s: T.Tables, w: Book, h: nat, b: nat)
    requires T.Shaped(s) && IsOpen(s, h) && ValidInumber(s.files[h].inumber) && b < DATA_BLOCKS
    requires var f := s.files[h].inumber;
             T.EnsureBlock(s, f) ==
               s.(blocks := s.blocks[b := TAKEN], inodes := s.inodes[f := s.inodes[f].(dataBlock := b)])
    ensures ValidBlock(T.EnsureBlock(s, s.files[h].inumber).inodes[s.files[h].inumber].dataBlock)
  {
  }

  /** Up to byte 1024, also past the end of the file. */
  lemma WriteNearKeeps(s: T.Tables, w: Book, h: nat, buf: seq<byte>) returns (w': Book)
    requires Inv(s, w) && IsOpen(s, h) && |buf| + s.files[h].offset < SIZE_MOD && s.files[h].offset <= BLOCK_SIZE
    ensures var (s', r) := T.Write(s, h, buf);
            Inv(s', w') && r == Done(Min(|buf|, BLOCK_SIZE - s.files[h].offset))
  {
    hide BlocksOk, NamesOk, RootOk, CountTaken, T.Write, Put;
    var b := WriteIsPut(s, w, h, buf);
    var n := Min(|buf|, BLOCK_SIZE - s.files[h].offset);
    if n == 0 {
      w' := w;
    } else {
      PutKeepsBook(s, w, h, b, buf[..n]);
      w' := w.(owner := w.owner[b := s.files[h].inumber]);
    }
  }

  // ---------------------------------------------------------------------------
  // Every call
  // ---------------------------------------------------------------------------

  /** Names of 1 to 39 bytes, and data through open handles. */
  ghost predicate Proper(s: T.Tables, op: Op)
    requires T.Shaped(s)
  {
    match op
    case Open(path, flags) => ValidPathname(path) && |NameOf(path)| < MAX_FILE_NAME
    case Close(_) => true
    case Write(h, _) => ValidHandle(h) ==> IsOpen(s, h)
    case Read(h, dst, len) => len <= |dst| && (ValidHandle(h) ==> IsOpen(s, h))
  }

  /** Every proper call that does not leave the arrays keeps the tables consistent. */
  lemma StepKeepsTables(s: T.Tables, w: Book, op: Op) returns (w': Book)
    requires Inv(s, w) && Proper(s, op) && !Step(s, op).1.outcome.Fault?
    ensures Inv(Step(s, op).0, w')
  {
    hide BlocksOk, RootOk, NamesOk, FilesOk, CountTaken, Abs, T.Open, T.Close, T.Write, T.Read;
    w' := w;
    match op
    case Open(path, flags) => w' := OpenKeepsTables(s, w, path, flags);
    case Close(h) => CloseRefines(s, w, h);
    case Write(h, buf) =>
      if ValidHandle(h) {
        w' := WriteOnOpenHandle(s, w, h, buf);
      } else {
        NoHandle(s, h, buf);
      }
    case Read(h, dst, len) => ReadKeepsTables(s, w, h, dst, len);
  }

  lemma OpenKeepsTables(s: T.Tables, w: Book, path: cstring, flags: Flags) returns (w': Book)
    requires Inv(s, w) && ValidPathname(path) && |NameOf(path)| < MAX_FILE_NAME
    ensures Inv(T.Open(s, path, flags).0, w')
  {
    hide BlocksOk, RootOk, CountTaken, T.Open;
    w' := OpenRefines(s, w, path, flags);
  }

  lemma NoHandle(s: T.Tables, h: int, buf: seq<byte>)
    requires T.Shaped(s) && !ValidHandle(h)
    ensures T.Write(s, h, buf) == (s, Failed)
  {
  }

  /** The run is proper, and no call of it leaves the arrays. */
  ghost predicate ProperRun(s: T.Tables, ops: seq<Op>)
    requires T.Shaped(s)
    decreases |ops|
  {
    ops != [] ==>
      && Proper(s, ops[0]) && !Step(s, ops[0]).1.outcome.Fault?
      && ProperRun(Step(s, ops[0]).0, ops[1..])
  }

  lemma {:induction false} RunKeepsTables(s: T.Tables, w: Book, ops: seq<Op>) returns (w': Book)
    requires Inv(s, w) && ProperRun(s, ops)
    ensures Inv(Run(s, ops).0, w')
    decreases |ops|
  {
    hide BlocksOk, NamesOk, RootOk, FilesOk, CountTaken, Step, Proper;
    if ops == [] {
      w' := w;
    } else {
      var w1 := StepKeepsTables(s, w, ops[0]);
      w' := RunKeepsTables(Step(s, ops[0]).0, w1, ops[1..]);
    }
  }

  // ---------------------------------------------------------------------------
  // What holds in every reachable state
  // ---------------------------------------------------------------------------

  /** No write through an open handle returns -1. */
  ghost predicate WritesSucceed(s: T.Tables)
    requires T.Shaped(s)
  {
    forall h, buf :: IsOpen(s, h) ==> T.Write(s, h, buf).1 != Failed
  }

  /** A create that finds the directory full returns -1 and changes only the content of an inode that is free. */
  ghost predicate CreatesRollBack(s: T.Tables, w: Book)
    requires T.Shaped(s)
  {
    |w.names| == MAX_DIR_ENTRIES ==>
      forall path, flags ::
        ValidPathname(path) && |NameOf(path)| < MAX_FILE_NAME && T.Lookup(s, path) == -1 ==>
          var (s', r) := T.Open(s, path, flags);
          && r == Failed && s' == s.(inodes := s'.inodes)
          && forall f :: Alive(s, f) ==> s'.inodes[f] == s.inodes[f]
  }

  lemma AllWritesSucceed(s: T.Tables, w: Book)
    requires Inv(s, w)
    ensures WritesSucceed(s)
  {
    hide BlocksOk, NamesOk, RootOk, FilesOk, CountTaken, T.Write;
    forall h, buf | IsOpen(s, h)
      ensures T.Write(s, h, buf).1 != Failed
    {
      var w' := WriteOnOpenHandle(s, w, h, buf);
    }
  }

  lemma FullCreateRollsBack(s: T.Tables, w: Book, path: cstring, flags: Flags)
    requires Inv(s, w) && |w.names| == MAX_DIR_ENTRIES
    requires ValidPathname(path) && |NameOf(path)| < MAX_FILE_NAME && T.Lookup(s, path) == -1
    ensures var (s', r) := T.Open(s, path, flags);
            && r == Failed && s' == s.(inodes := s'.inodes)
            && forall f :: Alive(s, f) ==> s'.inodes[f] == s.inodes[f]
  {
    hide BlocksOk, RootOk, CountTaken, FilesOf, Content, HandlesOf, T.Lookup, T.CreateNamed;
    LookupRefines(s, w, path);
    if flags.creat {
      var w' := CreateRefines(s, w, path);
    }
  }

  lemma AllCreatesRollBack(s: T.Tables, w: Book)
    requires Inv(s, w)
    ensures CreatesRollBack(s, w)
  {
    hide BlocksOk, NamesOk, RootOk, FilesOk, CountTaken, T.Open, T.Lookup;
    if |w.names| == MAX_DIR_ENTRIES {
      forall path, flags | ValidPathname(path) && |NameOf(path)| < MAX_FILE_NAME && T.Lookup(s, path) == -1
        ensures var (s', r) := T.Open(s, path, flags);
                && r == Failed && s' == s.(inodes := s'.inodes)
                && forall f :: Alive(s, f) ==> s'.inodes[f] == s.inodes[f]
      {
        FullCreateRollsBack(s, w, path, flags);
      }
    }
  }

  /**
   The tables over whole runs. After tfs_init, every run on names of 1 to 39
   bytes and open handles, with any truncations, failed opens and invalid
   closes, that does not leave the arrays: TAKEN blocks are in bijection with
   the inodes that use one, live files with directory entries of different
   names, and open_file_count is the number of open handles. At most 24 inodes
   and blocks are TAKEN, both allocators find a free entry, no write through an
   open handle returns -1, and a failed create rolls back.
   */
  lemma TablesHold(s: T.Tables, ops: seq<Op>) returns (w: Book)
    requires T.Shaped(s) && ProperRun(T.Init(s).0, ops)
    ensures var s' := Run(T.Init(s).0, ops).0;
            && Inv(s', w) && s'.openCount == |Abs(s', w).handles|
            && CountTaken(s'.inodeTs) <= 24 && CountTaken(s'.blocks) <= 24
            && FirstFree(s'.inodeTs, 0) != -1 && FirstFree(s'.blocks, 0) != -1
            && WritesSucceed(s') && CreatesRollBack(s', w)
  {
    hide BlocksOk, NamesOk, RootOk, FilesOk, CountTaken, Abs, T.Init, Run, ProperRun, WritesSucceed, CreatesRollBack;
    InitRefines(s);
    w := RunKeepsTables(T.Init(s).0, InitialBook(), ops);
    var s' := Run(T.Init(s).0, ops).0;
    FewTaken(s', w);
    AllocationsSucceed(s', w);
    HandleCount(s', w);
    AllWritesSucceed(s', w);
    AllCreatesRollBack(s', w);
  }

  // ---------------------------------------------------------------------------
  // What reads return, and early returns
  // ---------------------------------------------------------------------------

  /** i_size - of_offset in size_t. */
  function Ahead(s: T.Tables, h: nat): nat
    requires T.Shaped(s) && h < MAX_OPEN_FILES && ValidInumber(s.files[h].inumber)
  {
    var size, offset := s.inodes[s.files[h].inumber].size, s.files[h].offset;
    if offset <= size then size - offset else SIZE_MOD + size - offset
  }

  /**
   A read that ends returns min(len, i_size - of_offset) and, if that is not 0,
   the bytes of the file's block from the offset on, whether or not they are the
   file's; its handle moves by as many.
   */
  lemma ReadReturns(s: T.Tables, h: nat, dst: seq<byte>, len: nat)
    requires T.Shaped(s) && h < MAX_OPEN_FILES && ValidInumber(s.files[h].inumber) && len <= |dst|
    ensures var (s', dst', r) := T.Read(s, h, dst, len);
            var f := s.files[h].inumber;
            var n := Min(len, Ahead(s, h));
            var b, offset := s.inodes[f].dataBlock, s.files[h].offset;
            if n == 0 then s' == s && dst' == dst && r == Done(0)
            else if b < 0 || b >= 1024 then s' == s && dst' == dst && r == Failed
            else if b * 1024 + offset + n > 1024 * 1024 then s' == s && dst' == dst && r == Fault
            else
              && r == Done(n) && dst' == s.data[b * 1024 + offset..b * 1024 + offset + n] + dst[n..]
              && s' == s.(files := s.files[h := T.TFile(f, offset + n)])
  {
    assert T.ReadLength(s.inodes[s.files[h].inumber].size, s.files[h].offset, len) == Min(len, Ahead(s, h));
  }

  /** Numbers that are no handle, no open handle, no block or no live inode are refused and nothing changes. */
  lemma BadNumbersRefused(s: T.Tables, h: int, buf: seq<byte>, dst: seq<byte>, len: nat, b: int, f: int)
    requires T.Shaped(s) && len <= |dst|
    ensures h < 0 || h >= 20 || s.files[h].inumber < 0 || s.files[h].inumber >= 50 ==>
              T.Write(s, h, buf) == (s, Failed) && T.Read(s, h, dst, len) == (s, dst, Failed)
    ensures h < 0 || h >= 20 || s.fileTs[h] == FREE ==> T.Close(s, h) == (s, Failed)
    ensures b < 0 || b >= 1024 ==> T.BlockFree(s, b) == (s, false)
    ensures f < 0 || f >= 50 || s.inodeTs[f] == FREE ==> T.Delete(s, f) == (s, false)
  {
  }

  /** Entries that cannot be are refused. */
  lemma BadEntriesRefused(s: T.Tables, d: int, f: int, name: cstring)
    requires T.Shaped(s)
    ensures d < 0 || d >= 50 || f < 0 || f >= 50 || name == [] || s.inodes[d].kind == T_FILE ==>
              T.AddEntry(s, d, f, name) == (s, false)
    ensures d < 0 || d >= 50 || s.inodes[d].kind == T_FILE ==> T.Find(s, d, name) == -1
  {
  }

  /** Deletion and truncation of a file that is not empty give back its block and no other; they fail exactly when it has none. */
  lemma GivesBackItsBlock(s: T.Tables, f: nat)
    requires T.Shaped(s) && f < INODE_TABLE_SIZE && s.inodeTs[f] == TAKEN
    ensures var ino := s.inodes[f];
            var (d, deleted) := T.Delete(s, f);
            var (u, emptied) := T.Truncate(s, f);
            && (deleted <==> emptied) && (deleted <==> ino.size == 0 || 0 <= ino.dataBlock < 1024)
            && (forall k :: 0 <= k < 1024 ==>
                  d.blocks[k] == u.blocks[k] == if ino.size > 0 && k == ino.dataBlock then FREE else s.blocks[k])
            && d == s.(inodeTs := s.inodeTs[f := FREE], blocks := d.blocks)
            && u == s.(inodes := if deleted then s.inodes[f := T.TInode(ino.kind, 0, ino.dataBlock)] else s.inodes,
                       blocks := u.blocks)
  {
    assert s.inodes[f].size == 0 ==> s.inodes[f := T.TInode(s.inodes[f].kind, 0, s.inodes[f].dataBlock)] == s.inodes;
  }

  /**
   With every block TAKEN, a write to an empty file returns -1 and leaves it with
   i_data_block -1, and a directory is not created.
   */
  lemma NoBlockLeft(s: T.Tables, h: nat, buf: seq<byte>)
    requires T.Shaped(s) && h < MAX_OPEN_FILES && ValidInumber(s.files[h].inumber)
    requires forall b :: 0 <= b < DATA_BLOCKS ==> s.blocks[b] == TAKEN
    requires s.inodes[s.files[h].inumber].size == 0 && s.files[h].offset < 1024 && 0 < |buf| < 0x1_0000_0000
    ensures var f := s.files[h].inumber;
            T.Write(s, h, buf) == (s.(inodes := s.inodes[f := s.inodes[f].(dataBlock := -1)]), Failed)
    ensures var (s', g) := T.Create(s, T_DIRECTORY);
            g == -1 && s' == s.(inodes := s'.inodes) && forall i :: 0 <= i < 50 && s.inodeTs[i] == TAKEN ==> s'.inodes[i] == s.inodes[i]
  {
    var g := FirstFree(s.inodeTs, 0);
    if g != -1 {
      assert s.inodeTs[g := TAKEN][g := FREE] == s.inodeTs;
    }
  }

  /** Creating under the empty path reads past its terminator. */
  lemma EmptyPathFaults(s: T.Tables, flags: Flags)
    requires T.Shaped(s)
    ensures T.Open(s, [], flags) == (s, if flags.creat then Fault else Failed)
  {
  }
}
